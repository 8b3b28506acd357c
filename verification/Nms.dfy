/** Non-maximum suppression: the suppression-array loop of the detectors, the keep-list loop of the
    benchmark script, and the validator that checks results (face_detector.rs,
    detection_validators.rs, benchmark_face_detectors.py). */
module Nms {
  import opened Boxes
  import Sorting

  // ---- Greedy selection over any conflict relation ----

  predicate Blocked<T>(conflict: (T, T) -> bool, kept: seq<T>, x: T) {
    exists i :: 0 <= i < |kept| && conflict(kept[i], x)
  }

  /** Keeps an element unless it conflicts with one kept before it. */
  function Keep<T>(conflict: (T, T) -> bool, s: seq<T>): seq<T> {
    if s == [] then []
    else
      var kept, x := Keep(conflict, s[..|s| - 1]), s[|s| - 1];
      if Blocked(conflict, kept, x) then kept else kept + [x]
  }

  ghost predicate PairwiseFree<T>(conflict: (T, T) -> bool, s: seq<T>) {
    forall i, j | 0 <= i < j < |s| :: !conflict(s[i], s[j])
  }

  lemma {:induction false} KeptAreFree<T>(conflict: (T, T) -> bool, s: seq<T>)
    ensures PairwiseFree(conflict, Keep(conflict, s))
  {
    if s != [] {
      KeptAreFree(conflict, s[..|s| - 1]);
    }
  }

  lemma {:induction false} KeptAreInput<T>(conflict: (T, T) -> bool, s: seq<T>)
    ensures forall x | x in Keep(conflict, s) :: x in s
  {
    if s != [] {
      KeptAreInput(conflict, s[..|s| - 1]);
    }
  }

  lemma {:induction false} KeptStaySorted<T>(conflict: (T, T) -> bool, le: (T, T) -> bool, s: seq<T>)
    requires Sorting.Sorted(le, s)
    ensures Sorting.Sorted(le, Keep(conflict, s))
  {
    if s != [] {
      var front, x := s[..|s| - 1], s[|s| - 1];
      KeptStaySorted(conflict, le, front);
      KeptAreInput(conflict, front);
      var kept := Keep(conflict, front);
      forall i | 0 <= i < |kept|
        ensures le(kept[i], x)
      {
        assert kept[i] in front;
        var k :| 0 <= k < |front| && front[k] == kept[i];
        assert le(s[k], s[|s| - 1]);
      }
    }
  }

  /** Whatever is dropped conflicts with something kept that sorts no later. */
  lemma {:induction false} DroppedAreBlocked<T>(conflict: (T, T) -> bool, le: (T, T) -> bool, s: seq<T>, x: T)
    requires Sorting.Sorted(le, s) && x in s && x !in Keep(conflict, s)
    ensures exists y :: y in Keep(conflict, s) && conflict(y, x) && le(y, x)
  {
    var front, last := s[..|s| - 1], s[|s| - 1];
    var kept := Keep(conflict, front);
    if x in front {
      DroppedAreBlocked(conflict, le, front, x);
      var y :| y in kept && conflict(y, x) && le(y, x);
      assert y in Keep(conflict, s);
    } else {
      var i :| 0 <= i < |kept| && conflict(kept[i], x);
      KeptAreInput(conflict, front);
      assert kept[i] in front;
      var k :| 0 <= k < |front| && front[k] == kept[i];
      assert le(s[k], s[|s| - 1]);
      assert kept[i] in Keep(conflict, s);
    }
  }

  /** Selection changes nothing that is free of conflicts, so selecting twice is selecting once. */
  lemma {:induction false} KeepOfFree<T>(conflict: (T, T) -> bool, s: seq<T>)
    requires PairwiseFree(conflict, s)
    ensures Keep(conflict, s) == s
  {
    if s != [] {
      KeepOfFree(conflict, s[..|s| - 1]);
    }
  }

  // ---- Detections ----

  function ByConfidence(): (FaceDetection, FaceDetection) -> bool {
    (a: FaceDetection, b: FaceDetection) => a.confidence >= b.confidence
  }

  function Conflict(threshold: real): (FaceDetection, FaceDetection) -> bool {
    (a: FaceDetection, b: FaceDetection) => Iou(a, b) > threshold
  }

  /** Most confident first, ties in input order, then greedy selection. */
  function Selected(detections: seq<FaceDetection>, threshold: real): seq<FaceDetection> {
    Keep(Conflict(threshold), Sorting.Sort(ByConfidence(), detections))
  }

  /** Suppression for position j is decided by what has been kept. */
  ghost predicate Marks(conflict: (FaceDetection, FaceDetection) -> bool, s: seq<FaceDetection>,
                        suppressed: seq<bool>, kept: seq<FaceDetection>, from: nat)
    requires |suppressed| == |s|
  {
    forall j | from <= j < |s| :: suppressed[j] <==> Blocked(conflict, kept, s[j])
  }

  lemma BlockedByOneMore(conflict: (FaceDetection, FaceDetection) -> bool, kept: seq<FaceDetection>,
                         y: FaceDetection, x: FaceDetection)
    ensures Blocked(conflict, kept + [y], x) <==> Blocked(conflict, kept, x) || conflict(y, x)
  {
    if Blocked(conflict, kept, x) {
      var i :| 0 <= i < |kept| && conflict(kept[i], x);
      assert conflict((kept + [y])[i], x);
    }
    if conflict(y, x) {
      assert conflict((kept + [y])[|kept|], x);
    }
  }

  /** The inner loop: a newly kept detection suppresses the later ones it overlaps too much. */
  method Suppress(detections: array<FaceDetection>, suppressed: array<bool>, i: nat, threshold: real,
                  ghost kept: seq<FaceDetection>)
    requires suppressed.Length == detections.Length && i < detections.Length
    requires Marks(Conflict(threshold), detections[..], suppressed[..], kept, i)
    modifies suppressed
    ensures Marks(Conflict(threshold), detections[..], suppressed[..], kept + [detections[i]], i + 1)
  {
    ghost var before := suppressed[..];
    for j := i + 1 to detections.Length
      invariant forall k | i < k < j :: suppressed[k] == (before[k] || Iou(detections[i], detections[k]) > threshold)
      invariant forall k | j <= k < detections.Length :: suppressed[k] == before[k]
    {
      if !suppressed[j] && Iou(detections[i], detections[j]) > threshold {
        suppressed[j] := true;
      }
    }
    forall k | i + 1 <= k < detections.Length
      ensures suppressed[k] <==> Blocked(Conflict(threshold), kept + [detections[i]], detections[k])
    {
      BlockedByOneMore(Conflict(threshold), kept, detections[i], detections[k]);
      assert before[k] <==> Blocked(Conflict(threshold), kept, detections[..][k]);
    }
  }

  method SortInPlace(detections: array<FaceDetection>)
    modifies detections
    ensures detections[..] == Sorting.Sort(ByConfidence(), old(detections[..]))
  {
    var sorted := Sorting.Sort(ByConfidence(), detections[..]);
    Sorting.SortKeeps(ByConfidence(), detections[..]);
    for k := 0 to detections.Length
      invariant forall i | 0 <= i < k :: detections[i] == sorted[i]
    {
      detections[k] := sorted[k];
    }
  }

  /** The detectors' suppression: sorts in place, then marks and skips. */
  method SuppressNonMaxima(detections: array<FaceDetection>, threshold: real) returns (keep: seq<FaceDetection>)
    modifies detections
    ensures detections[..] == Sorting.Sort(ByConfidence(), old(detections[..]))
    ensures keep == Selected(old(detections[..]), threshold)
  {
    SortInPlace(detections);
    ghost var s := detections[..];
    var suppressed := new bool[detections.Length](_ => false);
    keep := [];
    for i := 0 to detections.Length
      invariant detections[..] == s
      invariant keep == Keep(Conflict(threshold), s[..i])
      invariant Marks(Conflict(threshold), s, suppressed[..], keep, i)
    {
      assert s[..i + 1][..i] == s[..i] && s[..i + 1][i] == s[i];
      if !suppressed[i] {
        Suppress(detections, suppressed, i, threshold, keep);
        keep := keep + [detections[i]];
      }
    }
    assert s[..|s|] == s;
  }

  /** The benchmark script's suppression: a list of kept detections, searched for each candidate. */
  method SuppressWithKeepList(detections: seq<FaceDetection>, threshold: real) returns (keep: seq<FaceDetection>)
    ensures keep == Selected(detections, threshold)
  {
    var s := Sorting.Sort(ByConfidence(), detections);
    keep := [];
    for i := 0 to |s|
      invariant keep == Keep(Conflict(threshold), s[..i])
    {
      assert s[..i + 1][..i] == s[..i] && s[..i + 1][i] == s[i];
      var suppress := false;
      for k := 0 to |keep|
        invariant !suppress && forall m | 0 <= m < k :: !Conflict(threshold)(keep[m], s[i])
      {
        IouSymmetric(s[i], keep[k]);
        if Iou(s[i], keep[k]) > threshold {
          assert Conflict(threshold)(keep[k], s[i]);
          suppress := true;
          break;
        }
      }
      if !suppress {
        keep := keep + [s[i]];
      }
    }
    assert s[..|s|] == s;
  }

  // ---- What selection guarantees ----

  lemma ConfidenceOrder()
    ensures Sorting.TotalPreorder(ByConfidence())
  {
  }

  /** Kept detections overlap pairwise by at most the threshold. */
  lemma KeptOverlapLittle(detections: seq<FaceDetection>, threshold: real, i: nat, j: nat)
    requires i < j < |Selected(detections, threshold)|
    ensures var keep := Selected(detections, threshold);
            Iou(keep[i], keep[j]) <= threshold && keep[i].confidence >= keep[j].confidence
  {
    var s := Sorting.Sort(ByConfidence(), detections);
    ConfidenceOrder();
    Sorting.SortSorts(ByConfidence(), detections);
    KeptAreFree(Conflict(threshold), s);
    KeptStaySorted(Conflict(threshold), ByConfidence(), s);
    var keep := Selected(detections, threshold);
    assert !Conflict(threshold)(keep[i], keep[j]) && ByConfidence()(keep[i], keep[j]);
  }

  /** Every input is kept, or overlaps a kept detection of at least its confidence by more than the threshold;
      and nothing is kept that was not detected. */
  lemma DroppedHaveBetterNeighbour(detections: seq<FaceDetection>, threshold: real, x: FaceDetection)
    ensures x in Selected(detections, threshold) ==> x in detections
    ensures x in detections && x !in Selected(detections, threshold) ==>
              exists y :: y in Selected(detections, threshold) && Iou(y, x) > threshold && y.confidence >= x.confidence
  {
    var s := Sorting.Sort(ByConfidence(), detections);
    ConfidenceOrder();
    Sorting.SortSorts(ByConfidence(), detections);
    Sorting.SortMembers(ByConfidence(), detections);
    KeptAreInput(Conflict(threshold), s);
    if x in detections && x !in Selected(detections, threshold) {
      DroppedAreBlocked(Conflict(threshold), ByConfidence(), s, x);
      var y :| y in Keep(Conflict(threshold), s) && Conflict(threshold)(y, x) && ByConfidence()(y, x);
      assert Iou(y, x) > threshold;
    }
  }

  lemma SelectionIsIdempotent(detections: seq<FaceDetection>, threshold: real)
    ensures Selected(Selected(detections, threshold), threshold) == Selected(detections, threshold)
  {
    var s := Sorting.Sort(ByConfidence(), detections);
    var keep := Selected(detections, threshold);
    ConfidenceOrder();
    Sorting.SortSorts(ByConfidence(), detections);
    KeptStaySorted(Conflict(threshold), ByConfidence(), s);
    Sorting.SortOfSorted(ByConfidence(), keep);
    KeptAreFree(Conflict(threshold), s);
    KeepOfFree(Conflict(threshold), keep);
  }

  // ---- The validator ----

  ghost predicate Violation(boxes: seq<BboxMeta>, threshold: real, i: int, j: int) {
    0 <= i < j < |boxes| && BboxIou(boxes[i], boxes[j]) > threshold
  }

  /** Reports exactly the pairs that overlap by more than the threshold. */
  method ValidateNoNmsViolations(boxes: seq<BboxMeta>, threshold: real) returns (issues: seq<(int, int)>)
    ensures forall i, j :: (i, j) in issues <==> Violation(boxes, threshold, i, j)
    ensures forall a, b | 0 <= a < b < |issues| :: issues[a] != issues[b]
  {
    issues := [];
    for i := 0 to |boxes|
      invariant forall a, b :: (a, b) in issues <==> Violation(boxes, threshold, a, b) && a < i
      invariant forall a, b | 0 <= a < b < |issues| :: issues[a] != issues[b]
    {
      for j := i + 1 to |boxes|
        invariant forall a, b :: (a, b) in issues <==>
                    Violation(boxes, threshold, a, b) && (a < i || (a == i && b < j))
        invariant forall a, b | 0 <= a < b < |issues| :: issues[a] != issues[b]
      {
        if BboxIou(boxes[i], boxes[j]) > threshold {
          issues := issues + [(i, j)];
        }
      }
    }
  }

  ghost function Metas(detections: seq<FaceDetection>, w: nat, h: nat): seq<BboxMeta> {
    seq(|detections|, k requires 0 <= k < |detections| => detections[k].ToBboxMeta(w, h))
  }

  /** The validator finds nothing to report on a selection, at any threshold no lower. */
  lemma SelectionPassesValidator(detections: seq<FaceDetection>, threshold: real, higher: real,
                                 w: nat, h: nat, i: int, j: int)
    requires threshold <= higher
    ensures !Violation(Metas(Selected(detections, threshold), w, h), higher, i, j)
  {
    var keep := Selected(detections, threshold);
    if 0 <= i < j < |keep| {
      KeptOverlapLittle(detections, threshold, i, j);
      IouAgrees(keep[i], keep[j], w, h);
    }
  }
}
