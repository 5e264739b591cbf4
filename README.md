# Moving-object detection post-processing, in Dafny

This project models the step that turns a binary motion mask into final bounding-box detections
(`common_utils/get_moving_object_detections.py`). The contour finder is not modelled: its output, the
bounding rectangles `(x, y, w, h)` of the external contours, is an input. The model then
follows four stages:

1. **Candidate building** (`ContourCandidates`). Each rectangle becomes the corner-form detection
   `[x, y, x + w, y + h, w * h]`. It is kept only when `w * h` exceeds the area threshold, and contour order is kept.
2. **Containment filter** (`Containment`). A candidate is dropped when a candidate at another
   position contains it (`is_contained`). Two candidates with identical corners therefore drop each other.
3. **Non-maximal suppression** (`Suppression`, `perform_nms`). Detections are sorted by area, largest
   first. The front box is kept, and every remaining box whose intersection-over-union with it is
   not below the threshold is dropped. This repeats on what is left.
4. **Proximity merge** (`ProximityMerge`, `merge_near_detections`). The front box is popped. One scan joins
   into it, with `union_boxes`, every later box whose centre is strictly nearer than the distance
   threshold. The grown box is emitted, and the scan repeats on the boxes it left.

`Detections.GetContourDetections` chains the four stages. `Boxes` holds the geometry (`is_contained`,
`union_boxes`, `is_near`, the overlap test) and `Sequences` holds index-selection helpers.

The source's loops are methods, each proved equal to a function that states what it computes:
- `BuildCandidates` = `Candidates`
- `RemoveContained` = `NotContained`
- `PerformNms` = `Suppress` of some area-sorted order
- `MergeNearDetections` = `Merge`

The properties are lemmas about those functions.

Arithmetic is exact. Coordinates and areas are unbounded integers. The overlap ratio and the
centre distance are compared on reals, with the division and the square root multiplied out.
`LowOverlapIsRatioBelow` and `NearIffDistanceBelow` show these forms are the source's tests.

Some behaviour of the code is easy to misread, and the model keeps it as written:
- **Sort stability.** `np.argsort` with its default kind is not stable, so the order among equal areas is unspecified. The model allows any non-increasing order of areas (`IsAreaSortedPermutation`), and a result is any outcome over such an order (`IsDetectionOutcome`).
- **Ratio exactly at the threshold.** The keep test is a strict `<`, so a box whose ratio is exactly the threshold is suppressed (`SuppressedAtThreshold`, `AtThresholdDropped`).
- **Zero union area.** `intersection / union` with a zero union is NaN or infinity, which is below no threshold, so the box is suppressed (`LowOverlap`).
- **Negative widths and heights.** Only `w * h > thresh` filters rectangles, so negative sizes are not rejected, and the model does the same.
- **Output form.** Merged boxes come out as `[x, y, w, h, w * h]`, the form `union_boxes` writes, while boxes that were never merged stay in corner form. See Findings.

## Model

| member | source | states |
|---|---|---|
| Boxes.ContainedIffRegionInside | common_utils/get_moving_object_detections.py:5-14 | for a box with ordered corners, `is_contained` holds exactly when every pixel of the first box's region lies in the second's |
| Boxes.ContainedReflexive | common_utils/get_moving_object_detections.py:5-14 | boxes with the same corners contain each other, whatever their area fields |
| Boxes.IsContained | common_utils/get_moving_object_detections.py:5-14 | `is_contained`: a box lies within another only if it is no wider and no taller |
| Boxes.UnionBoxes | common_utils/get_moving_object_detections.py:17-31 | reading both arguments as `[x, y, w, h]`, the result encloses both. Its x, y, right edge `x + w` and bottom edge `y + h` are each taken from one argument, so they are the min/max of the two, and its area field is its `w * h` |
| Boxes.UnionBoxesIsLeast | common_utils/get_moving_object_detections.py:17-31 | any box enclosing both arguments, in that reading, encloses their union |
| Boxes.UnionBoxesCommutes | common_utils/get_moving_object_detections.py:17-31 | `union_boxes(a, b) == union_boxes(b, a)` |
| Boxes.UnionBoxesAssociates | common_utils/get_moving_object_detections.py:17-31 | joining three boxes gives the same box in either grouping, so the merge's running union does not depend on grouping |
| Boxes.UnionCorners | common_utils/get_moving_object_detections.py:17-31 | the corrected union: it contains both corner-form arguments, lies within every box that contains both, and is well formed (area equals its true, positive area) when both arguments are |
| Boxes.NearIffDistanceBelow | common_utils/get_moving_object_detections.py:34-42 | for the true centre distance `d`, `IsNear` holds exactly when `d < distance_threshold` |
| Boxes.IsNearSymmetric | common_utils/get_moving_object_detections.py:34-42 | `is_near(a, b, t) == is_near(b, a, t)` |
| Boxes.NotNearAtThreshold | common_utils/get_moving_object_detections.py:42 | centres exactly the threshold apart are not near |
| Boxes.SquaredCentreDistance | common_utils/get_moving_object_detections.py:39-41 | the squared distance of the two centres is never negative, and is zero exactly when the centres coincide |
| Boxes.IsNear | common_utils/get_moving_object_detections.py:34-42 | `is_near`: no threshold at or below zero is ever met |
| Boxes.Intersection | common_utils/get_moving_object_detections.py:85-91 | the intersection area is never negative |
| Boxes.LowOverlap | common_utils/get_moving_object_detections.py:85-96 | the keep test: a zero union never passes; with a positive union, a threshold at or below zero never passes, and disjoint boxes pass exactly when the threshold is positive |
| Boxes.LowOverlapIsRatioBelow | common_utils/get_moving_object_detections.py:90-96 | for a non-zero union, the multiplied-out keep test is exactly `intersection / union < threshold` |
| Boxes.OverlapBounds | common_utils/get_moving_object_detections.py:85-93 | for well-formed boxes: intersection at most the smaller area, union at least the larger area and positive, so the ratio is always defined |
| Boxes.OverlapRatio | common_utils/get_moving_object_detections.py:91-93 | for well-formed boxes the intersection-over-union is defined and lies between 0 and 1 |
| Boxes.LowOverlapSymmetric | common_utils/get_moving_object_detections.py:85-96 | the keep test does not depend on which box is the keeper |
| Boxes.SuppressedAtThreshold | common_utils/get_moving_object_detections.py:93-97 | two well-formed boxes whose ratio is exactly the threshold fail the keep test |
| ContourCandidates.Candidate | common_utils/get_moving_object_detections.py:110-113 | the candidate is `[x, y, x + w, y + h, w * h]`: it starts at `(x, y)`, spans `w` by `h`, and its area field is its corner area |
| ContourCandidates.PassingIndices | common_utils/get_moving_object_detections.py:109-113 | strictly increasing positions, holding exactly the rectangles with `w * h > thresh` |
| ContourCandidates.Candidates | common_utils/get_moving_object_detections.py:108-117 | the k-th candidate is the candidate of the k-th passing rectangle in contour order, and it passes. There are no candidates exactly when no rectangle passes |
| ContourCandidates.CandidatesWellFormed | common_utils/get_moving_object_detections.py:110-113 | rectangles of non-negative size and a non-negative threshold give well-formed candidates |
| ContourCandidates.BuildCandidates | common_utils/get_moving_object_detections.py:108-114 | the loop builds exactly `Candidates(rects, thresh)` |
| Containment.KeptIndices | common_utils/get_moving_object_detections.py:120-128 | strictly increasing positions. Position i is among them exactly when no candidate at a position `j != i` contains candidate i |
| Containment.ContainedByOther | common_utils/get_moving_object_detections.py:123-126 | the inner loop's outcome: a candidate can be contained by another only when there are at least two candidates |
| Containment.NotContained | common_utils/get_moving_object_detections.py:120-130 | the kept candidates, in order, are drawn from the candidates: a sub-multiset |
| Containment.RemoveContained | common_utils/get_moving_object_detections.py:120-128 | the nested loop with its early `break` keeps exactly `NotContained(c)` |
| Containment.DuplicatesBothRemoved | common_utils/get_moving_object_detections.py:120-128 | two candidates with identical corners at different positions are both dropped |
| Containment.NestedPairKeepsOuter | common_utils/get_moving_object_detections.py:120-128 | of a box strictly inside another, only the outer box is kept, in either order |
| Containment.OnlySecondKept | common_utils/get_moving_object_detections.py:120-128 | of two candidates where the first lies in the second but not the reverse, only the second is kept |
| Containment.OnlyFirstKept | common_utils/get_moving_object_detections.py:120-128 | of two candidates where the second lies in the first but not the reverse, only the first is kept |
| Suppression.InsertByArea | common_utils/get_moving_object_detections.py:71-72 | inserting adds exactly the one box (multiset) |
| Suppression.InsertByAreaSorted | common_utils/get_moving_object_detections.py:71-72 | insertion keeps a list non-increasing in area |
| Suppression.SortByArea | common_utils/get_moving_object_detections.py:71-72 | every list has an order the sort may produce: a permutation non-increasing in area |
| Suppression.Survivors | common_utils/get_moving_object_detections.py:83-100 | a round keeps at most the boxes it is given, and only those |
| Suppression.SurvivorsMember | common_utils/get_moving_object_detections.py:83-100 | a box survives a round exactly when it was remaining and passes the keep test against the keeper |
| Suppression.Suppress | common_utils/get_moving_object_detections.py:74-102 | at most as many keepers as inputs, each from the input. The keepers are empty exactly when the input is |
| Suppression.PerformNms | common_utils/get_moving_object_detections.py:66-102 | the keepers are `Suppress` of some area-sorted permutation of the input. They are at most as many as the inputs, drawn from them, empty exactly when the input is, non-increasing in area, and pairwise below the threshold in keeping order |
| Suppression.KeepersOfSortedOrder | common_utils/get_moving_object_detections.py:70-102 | suppressing any area-sorted order of the input gives keepers with all of the properties above |
| Suppression.SuppressSorted | common_utils/get_moving_object_detections.py:74-100 | keepers of a list sorted by area are sorted by area |
| Suppression.SurvivorsSorted | common_utils/get_moving_object_detections.py:83-100 | a round keeps a sorted list sorted |
| Suppression.SuppressPairwiseLow | common_utils/get_moving_object_detections.py:74-100 | for keepers at positions i < j, the keep test of `k_i` against `k_j` holds |
| Suppression.LargestIsKept | common_utils/get_moving_object_detections.py:76-78 | the first keeper has the largest area of the input |
| Suppression.SuppressedHaveCause | common_utils/get_moving_object_detections.py:74-100 | every input box is a keeper or fails the keep test against some keeper |
| Suppression.AtThresholdDropped | common_utils/get_moving_object_detections.py:93-97 | a well-formed box whose ratio with a well-formed keeper is exactly the threshold does not survive the round |
| Suppression.KeepersPairwiseLow | common_utils/get_moving_object_detections.py:74-100 | any two keepers (any two copies of a repeated keeper) pass the keep test against each other |
| Suppression.LaterKeeperLowWithHead | common_utils/get_moving_object_detections.py:74-100 | every later keeper passed the keep test against the first keeper |
| Suppression.SurvivorsAll | common_utils/get_moving_object_detections.py:83-100 | when every box passes the keep test against the keeper, the round keeps them all, in order |
| Suppression.SuppressKeepsPairwiseLow | common_utils/get_moving_object_detections.py:66-102 | a list whose boxes pairwise pass the keep test is kept whole |
| Suppression.NmsIdempotent | common_utils/get_moving_object_detections.py:66-102 | suppressing any reordering of the keepers gives back that order unchanged: a second run removes nothing, whatever its tie order |
| ProximityMerge.Scan | common_utils/get_moving_object_detections.py:51-61 | each scanned box is either absorbed or left over, so the counts add up |
| ProximityMerge.Merge | common_utils/get_moving_object_detections.py:45-63 | empty input gives empty output, and non-empty input gives at least one and at most as many boxes |
| ProximityMerge.MergeNearDetections | common_utils/get_moving_object_detections.py:45-63 | the outer loop, popping the front box each round, emits exactly `Merge(AsWritten, detections, t)`, with its length bounds |
| ProximityMerge.ScanNear | common_utils/get_moving_object_detections.py:52-58 | the inner loop grows the box and collects the left-over boxes exactly as one `Scan` |
| ProximityMerge.ScanConserves | common_utils/get_moving_object_detections.py:52-58 | the absorbed and left-over boxes are together the scanned boxes (multiset) |
| ProximityMerge.ScanJoinsAbsorbed | common_utils/get_moving_object_detections.py:52-58 | the emitted box is the seed joined, in order, with exactly the boxes absorbed |
| ProximityMerge.MergeJoinsGroups | common_utils/get_moving_object_detections.py:45-63 | there is one non-empty group per output box, and each output box is its group joined from the group's seed |
| ProximityMerge.GroupsPartitionInput | common_utils/get_moving_object_detections.py:45-63 | the groups together are the input, with multiplicity: each input box seeds or is absorbed into exactly one output box |
| ProximityMerge.JoinEncloses | common_utils/get_moving_object_detections.py:17-31 | a join encloses both its arguments, in the reading its union uses |
| ProximityMerge.JoinAllEncloses | common_utils/get_moving_object_detections.py:53-56 | the running union encloses the seed and every box joined into it |
| ProximityMerge.MergeEnclosesGroups | common_utils/get_moving_object_detections.py:45-63 | each output box encloses every box of its group |
| ProximityMerge.CornersMergeWellFormed | common_utils/get_moving_object_detections.py:45-63 | with the corrected union, well-formed input boxes give well-formed output boxes |
| ProximityMerge.JoinAllCornersWellFormed | common_utils/get_moving_object_detections.py:53-56 | with the corrected union, the running union of well-formed boxes stays well formed |
| ProximityMerge.ScanNoneNear | common_utils/get_moving_object_detections.py:52-58 | a scan in which no box is near the seed absorbs nothing and leaves every box, in order |
| ProximityMerge.FarBoxesUnchanged | common_utils/get_moving_object_detections.py:45-63 | boxes pairwise not near are all emitted unchanged, in order |
| ProximityMerge.AtThresholdNotMerged | common_utils/get_moving_object_detections.py:42-58 | two boxes whose centres are exactly the threshold apart are both emitted unchanged |
| ProximityMerge.NearPairMerged | common_utils/get_moving_object_detections.py:45-63 | two near boxes are emitted as their one union |
| ProximityMerge.UnionBoxesOnCornersOversized | common_utils/get_moving_object_detections.py:24-31 | an input pair on which the merge as written returns a box wider than both inputs with a wrong area field, while the corrected merge returns their corner union |
| Detections.GetContourDetections | common_utils/get_moving_object_detections.py:105-135 | the result is an outcome of the four stages for some tie order. It is empty when no rectangle passes the area filter, empty exactly when the containment filter leaves nothing, and never longer than the candidate list |
| Detections.IsDetectionOutcome | common_utils/get_moving_object_detections.py:105-135 | the composition of the four stages over some order the sort may produce; such a result is never longer than the candidates the containment filter keeps, and is empty exactly when that filter keeps none |
| Detections.SingleRectangle | common_utils/get_moving_object_detections.py:105-135 | one rectangle above the threshold yields exactly its own candidate |
| Detections.SingleCandidate | common_utils/get_moving_object_detections.py:108-128 | one passing rectangle gives one candidate, which the containment filter keeps |
| Detections.BothPass | common_utils/get_moving_object_detections.py:108-113 | two passing rectangles give their two candidates, in order |
| Detections.NeitherContainedBothKept | common_utils/get_moving_object_detections.py:120-128 | when neither of two boxes contains the other, both are kept, in order |
| Detections.SeparatePairUnchanged | common_utils/get_moving_object_detections.py:66-102 | two boxes that overlap little and are not near pass suppression and the merge unchanged |
| Detections.TwoDistantSquares | common_utils/get_moving_object_detections.py:105-135 | two disjoint 20 by 20 squares at (0, 0) and (100, 100), area threshold 100, default thresholds: the output is the two area-400 boxes, in either order |
| Detections.TwoDistantSquaresFiltered | common_utils/get_moving_object_detections.py:108-128 | the two squares of that example pass the area filter and the containment filter, in order |

## Left out

- The contour finder and bounding rectangles (`cv2.findContours`, `cv2.boundingRect`, lines 107 and 110) are foreign OpenCV code. Their result, a sequence of rectangles in contour order, is the input of `GetContourDetections`.
- `draw_contours` (lines 138-148) only draws rectangles with OpenCV and is not modelled.
- Floating point: `np.linalg.norm` and the `/` of the overlap ratio are exact real arithmetic. Rounding at the thresholds is not modelled.
- Integer width: numpy's 64-bit coordinates and areas are unbounded integers. Overflow cannot occur for image-sized boxes.
- numpy array plumbing (`np.array`, `.tolist()`, fancy indexing at lines 72 and 100) is sequences. So is the empty `np.array([])` result of line 117.
- `merge_near_detections` removes the first element of the list it is given (line 51) and then works on fresh lists (line 61). Its only caller passes a fresh `.tolist()` copy, so the model takes a sequence by value and does not model the caller's list changing.
- PerformNms: the order `np.argsort` gives equal areas is not modelled. The method picks any order that is non-increasing in area, and every property is proved for all such orders.
- ProximityMerge.Scan: the left-over boxes are stated to be, with the absorbed ones, the scanned boxes with multiplicity. That they keep their relative order is not stated, though the definition does keep it.
- Containment.NotContained: its contract states only the sub-multiset. Order preservation comes from `KeptIndices` (strictly increasing positions), from which the kept list is selected.
- `common_utils/choose_dataset_and_video.py` (random dataset choice and shared-file bookkeeping) and `common_utils/make_video.py` (video composition and writing) are not part of this model. Both are randomness and file or video I/O.

## Findings

| source | as written | input that shows it | evidently intended | confidence | as-written member | corrected member |
|---|---|---|---|---|---|---|
| common_utils/get_moving_object_detections.py:24-31 | `union_boxes` reads fields 2 and 3 as width and height and returns `[x, y, w, h, w * h]`. Its callers pass corner-form boxes `[x1, y1, x2, y2, area]` | `[100, 100, 110, 110, 100]` and `[105, 100, 115, 110, 100]`, centres 5 apart, distance threshold 55: merged to `[100, 100, 120, 110, 13200]`, which reaches x = 120 though neither input passes 115, and whose area field is 13200 | the smallest corner-form box containing both, with its area recomputed: `[100, 100, 115, 110, 150]` | not executed; the docstring asks for "one encompassing box", and the extractor builds corner-form boxes at line 113 | ProximityMerge.UnionBoxesOnCornersOversized | Boxes.UnionCorners |

The merge functions (`Scan`, `Merge`, `Groups`) take the union as a parameter. `AsWritten` is
`union_boxes` as written, and the method `MergeNearDetections` uses it. `Corners` is the corrected union.
For `Corners`, the model proves that each output box contains its group (`MergeEnclosesGroups`) and
that output boxes stay well formed (`CornersMergeWellFormed`).
