/** Greedy matching of detections to ground truth, and the scores computed from it
    (detection_validators.rs). */
module BoxMatching {
  import opened Text
  import opened Boxes

  /** A pair that may be matched. The running best starts at zero and must be exceeded, so a pair
      also needs a positive overlap; for a positive threshold that adds nothing. */
  predicate Eligible(d: BboxMeta, g: BboxMeta, threshold: real) {
    BboxIou(d, g) >= threshold && BboxIou(d, g) > 0.0
  }

  // ---- The greedy matching ----

  /** The free ground-truth box below j with the greatest overlap, the first of equals. */
  function Pick(d: BboxMeta, truth: seq<BboxMeta>, threshold: real, used: set<nat>, j: nat): (r: Option<nat>)
    requires j <= |truth|
    ensures r.Some? ==> r.value < j && r.value !in used && Eligible(d, truth[r.value], threshold)
  {
    if j == 0 then None
    else
      var best := Pick(d, truth, threshold, used, j - 1);
      var iou := BboxIou(d, truth[j - 1]);
      if j - 1 !in used && iou >= threshold && iou > (if best.Some? then BboxIou(d, truth[best.value]) else 0.0)
      then Some(j - 1) else best
  }

  lemma {:induction false} PickIsBest(d: BboxMeta, truth: seq<BboxMeta>, threshold: real, used: set<nat>, j: nat, k: nat)
    requires k < j <= |truth| && k !in used && Eligible(d, truth[k], threshold)
    ensures var r := Pick(d, truth, threshold, used, j);
            && r.Some? && BboxIou(d, truth[k]) <= BboxIou(d, truth[r.value])
            && (k < r.value ==> BboxIou(d, truth[k]) < BboxIou(d, truth[r.value]))
    decreases j
  {
    if k < j - 1 {
      PickIsBest(d, truth, threshold, used, j - 1, k);
    }
  }

  function Used(m: seq<Option<nat>>): (s: set<nat>) {
    set k | 0 <= k < |m| && m[k].Some? :: m[k].value
  }

  /** For each of the first n detections, the ground-truth box it is matched to. */
  function Matching(detected: seq<BboxMeta>, truth: seq<BboxMeta>, threshold: real, n: nat): (m: seq<Option<nat>>)
    requires n <= |detected|
    ensures |m| == n
  {
    if n == 0 then []
    else
      var m := Matching(detected, truth, threshold, n - 1);
      m + [Pick(detected[n - 1], truth, threshold, Used(m), |truth|)]
  }

  function TruePositives(m: seq<Option<nat>>): nat {
    if m == [] then 0 else TruePositives(m[..|m| - 1]) + if m[|m| - 1].Some? then 1 else 0
  }

  /** The inner loop over the ground truth. */
  method BestMatch(d: BboxMeta, truth: seq<BboxMeta>, threshold: real, matched: array<bool>, ghost used: set<nat>)
    returns (bestGt: Option<nat>)
    requires matched.Length == |truth| && forall j | 0 <= j < |truth| :: matched[j] <==> j in used
    ensures bestGt == Pick(d, truth, threshold, used, |truth|)
  {
    var bestIou := 0.0;
    bestGt := None;
    for j := 0 to |truth|
      invariant bestGt == Pick(d, truth, threshold, used, j)
      invariant bestIou == if bestGt.Some? then BboxIou(d, truth[bestGt.value]) else 0.0
    {
      if !matched[j] {
        var iou := BboxIou(d, truth[j]);
        if iou >= threshold && iou > bestIou {
          bestIou, bestGt := iou, Some(j);
        }
      }
    }
  }

  lemma UsedGrows(m: seq<Option<nat>>, x: Option<nat>)
    ensures Used(m + [x]) == Used(m) + if x.Some? then {x.value} else {}
  {
    var n := m + [x];
    forall v
      ensures v in Used(n) <==> v in Used(m) || (x.Some? && v == x.value)
    {
      if v in Used(m) {
        var k :| 0 <= k < |m| && m[k].Some? && m[k].value == v;
        assert n[k] == m[k];
      }
      if x.Some? && v == x.value {
        assert n[|m|] == x;
      }
    }
  }

  // ---- What the matching guarantees ----

  ghost predicate NoneTwice(m: seq<Option<nat>>) {
    forall i, j | 0 <= i < j < |m| && m[i].Some? && m[j].Some? :: m[i].value != m[j].value
  }

  /** Matched pairs are eligible and no ground-truth box is matched twice. */
  ghost predicate ProperMatching(detected: seq<BboxMeta>, truth: seq<BboxMeta>, threshold: real, m: seq<Option<nat>>)
    requires |m| <= |detected|
  {
    && (forall i | 0 <= i < |m| && m[i].Some? ::
          m[i].value < |truth| && Eligible(detected[i], truth[m[i].value], threshold))
    && NoneTwice(m)
  }

  lemma {:induction false} MatchingIsProper(detected: seq<BboxMeta>, truth: seq<BboxMeta>, threshold: real, n: nat)
    requires n <= |detected|
    ensures ProperMatching(detected, truth, threshold, Matching(detected, truth, threshold, n))
  {
    if n > 0 {
      MatchingIsProper(detected, truth, threshold, n - 1);
    }
  }

  /** Maximal and greedy: a detection takes the best box free at its turn, so an eligible pair is
      left apart only if its box was taken earlier or its detection took a box at least as good. */
  lemma {:induction false} MatchingIsMaximal(detected: seq<BboxMeta>, truth: seq<BboxMeta>, threshold: real,
                                             n: nat, i: nat, j: nat)
    requires i < n <= |detected| && j < |truth| && Eligible(detected[i], truth[j], threshold)
    ensures var m := Matching(detected, truth, threshold, n);
            || (exists k :: 0 <= k < i && m[k] == Some(j))
            || (m[i].Some? && m[i].value < |truth|
                && BboxIou(detected[i], truth[m[i].value]) >= BboxIou(detected[i], truth[j]))
    decreases n
  {
    var m := Matching(detected, truth, threshold, n);
    var front := Matching(detected, truth, threshold, n - 1);
    if i < n - 1 {
      MatchingIsMaximal(detected, truth, threshold, n - 1, i, j);
      assert forall k | 0 <= k < n - 1 :: m[k] == front[k];
      if k :| 0 <= k < i && front[k] == Some(j) {
        assert m[k] == Some(j);
      }
    } else if j in Used(front) {
      var k :| 0 <= k < |front| && front[k].Some? && front[k].value == j;
      assert m[k] == Some(j);
    } else {
      PickIsBest(detected[i], truth, threshold, Used(front), |truth|, j);
    }
  }

  // ---- The factor-two bound ----

  /** Any set of eligible pairs in which no detection and no box occurs twice. */
  ghost predicate IsMatching(detected: seq<BboxMeta>, truth: seq<BboxMeta>, threshold: real, pairs: set<(nat, nat)>) {
    && (forall p | p in pairs :: p.0 < |detected| && p.1 < |truth| && Eligible(detected[p.0], truth[p.1], threshold))
    && (forall p, q | p in pairs && q in pairs && (p.0 == q.0 || p.1 == q.1) :: p == q)
  }

  ghost function MatchedDetections(m: seq<Option<nat>>): set<nat> {
    set i | 0 <= i < |m| && m[i].Some? :: i
  }

  lemma MatchedGrows(m: seq<Option<nat>>, x: Option<nat>)
    ensures MatchedDetections(m + [x]) == MatchedDetections(m) + if x.Some? then {|m|} else {}
  {
    var n := m + [x];
    assert forall i | 0 <= i < |m| :: n[i] == m[i];
    assert n[|m|] == x;
    forall i: nat
      ensures i in MatchedDetections(n) <==> i in MatchedDetections(m) || (x.Some? && i == |m|)
    {
    }
  }

  lemma LastIsNew(front: seq<Option<nat>>, x: Option<nat>)
    requires NoneTwice(front + [x]) && x.Some?
    ensures NoneTwice(front) && x.value !in Used(front) && |front| !in MatchedDetections(front)
  {
    var m := front + [x];
    assert forall i | 0 <= i < |front| :: m[i] == front[i];
    assert forall k | 0 <= k < |front| && front[k].Some? :: m[k].value != m[|front|].value;
    assert NoneTwice(front) by {
      assert forall i, j | 0 <= i < j < |front| && front[i].Some? && front[j].Some? :: m[i].value != m[j].value;
    }
  }

  lemma {:induction false} CountMatched(m: seq<Option<nat>>)
    requires NoneTwice(m)
    ensures |MatchedDetections(m)| == TruePositives(m) == |Used(m)|
  {
    if m == [] {
      assert MatchedDetections(m) == {} && Used(m) == {};
    } else {
      var front, last := m[..|m| - 1], m[|m| - 1];
      assert m == front + [last];
      CountMatched(front);
      UsedGrows(front, last);
      MatchedGrows(front, last);
      if last.Some? {
        LastIsNew(front, last);
      }
    }
  }

  lemma {:induction false} FirstsBounded(pairs: set<(nat, nat)>, s: set<nat>)
    requires forall p | p in pairs :: p.0 in s
    requires forall p, q | p in pairs && q in pairs && p.0 == q.0 :: p == q
    ensures |pairs| <= |s|
    decreases pairs
  {
    if pairs != {} {
      var p :| p in pairs;
      FirstsBounded(pairs - {p}, s - {p.0});
    }
  }

  lemma {:induction false} SecondsBounded(pairs: set<(nat, nat)>, s: set<nat>)
    requires forall p | p in pairs :: p.1 in s
    requires forall p, q | p in pairs && q in pairs && p.1 == q.1 :: p == q
    ensures |pairs| <= |s|
    decreases pairs
  {
    if pairs != {} {
      var p :| p in pairs;
      SecondsBounded(pairs - {p}, s - {p.1});
    }
  }

  lemma TouchedBounded(pairs: set<(nat, nat)>, ds: set<nat>, gs: set<nat>)
    requires forall p | p in pairs :: p.0 in ds || p.1 in gs
    requires forall p, q | p in pairs && q in pairs && (p.0 == q.0 || p.1 == q.1) :: p == q
    ensures |pairs| <= |ds| + |gs|
  {
    var byDetection := set p | p in pairs && p.0 in ds;
    FirstsBounded(byDetection, ds);
    SecondsBounded(pairs - byDetection, gs);
    assert pairs == byDetection + (pairs - byDetection);
  }

  /** Maximality: of every eligible pair, the detection or the box is matched. */
  lemma EligiblePairTouched(detected: seq<BboxMeta>, truth: seq<BboxMeta>, threshold: real, i: nat, j: nat)
    requires i < |detected| && j < |truth| && Eligible(detected[i], truth[j], threshold)
    ensures var m := Matching(detected, truth, threshold, |detected|);
            i in MatchedDetections(m) || j in Used(m)
  {
    var m := Matching(detected, truth, threshold, |detected|);
    MatchingIsMaximal(detected, truth, threshold, |detected|, i, j);
    if k :| 0 <= k < i && m[k] == Some(j) {
      assert m[k].value in Used(m);
    }
  }

  /** The greedy matching has at least half as many pairs as any matching at the same threshold. */
  lemma GreedyWithinFactorTwo(detected: seq<BboxMeta>, truth: seq<BboxMeta>, threshold: real, pairs: set<(nat, nat)>)
    requires IsMatching(detected, truth, threshold, pairs)
    ensures |pairs| <= 2 * TruePositives(Matching(detected, truth, threshold, |detected|))
  {
    var m := Matching(detected, truth, threshold, |detected|);
    MatchingIsProper(detected, truth, threshold, |detected|);
    CountMatched(m);
    forall p | p in pairs
      ensures p.0 in MatchedDetections(m) || p.1 in Used(m)
    {
      EligiblePairTouched(detected, truth, threshold, p.0, p.1);
    }
    TouchedBounded(pairs, MatchedDetections(m), Used(m));
  }

  lemma {:induction false} SubsetOfRange(s: set<nat>, n: nat)
    requires forall x | x in s :: x < n
    ensures |s| <= n
  {
    if n == 0 {
      assert s == {};
    } else {
      SubsetOfRange(s - {n - 1}, n - 1);
      assert |s| <= |s - {n - 1}| + 1;
    }
  }

  /** The number of matched pairs exceeds neither the detections nor the ground truth. */
  lemma TruePositivesBounded(detected: seq<BboxMeta>, truth: seq<BboxMeta>, threshold: real)
    ensures var tp := TruePositives(Matching(detected, truth, threshold, |detected|));
            tp <= |detected| && tp <= |truth|
  {
    var m := Matching(detected, truth, threshold, |detected|);
    MatchingIsProper(detected, truth, threshold, |detected|);
    CountMatched(m);
    SubsetOfRange(MatchedDetections(m), |detected|);
    SubsetOfRange(Used(m), |truth|);
  }

  // ---- Scores ----

  datatype Scores = Scores(precision: real, recall: real, f1: real)

  function ScoresOf(tp: nat, detected: nat, truth: nat): Scores
    requires detected > 0 && truth > 0
  {
    var precision := tp as real / detected as real;
    var recall := tp as real / truth as real;
    Scores(precision, recall,
           if precision + recall > 0.0 then 2.0 * precision * recall / (precision + recall) else 0.0)
  }

  lemma FractionBounds(x: nat, n: nat)
    requires x <= n && n > 0
    ensures 0.0 <= x as real / n as real <= 1.0
    ensures x > 0 ==> x as real / n as real > 0.0
    ensures x as real / n as real * n as real == x as real
  {
  }

  lemma CancelLeft(a: real, x: real, y: real)
    requires a > 0.0 && a * x == a * y
    ensures x == y
  {
    assert a * (x - y) == 0.0;
  }

  lemma HarmonicMean(tp: real, p: real, r: real, d: real, g: real, f: real)
    requires tp > 0.0 && d > 0.0 && g > 0.0 && p > 0.0 && r > 0.0
    requires p * d == tp && r * g == tp && f * (p + r) == 2.0 * p * r
    ensures f * (d + g) == 2.0 * tp
  {
    // f (p + r) d g = 2 tp tp, and (p + r) d g = tp (d + g).
    assert (p + r) * d * g == tp * g + tp * d by {
      assert (p + r) * d * g == (p * d) * g + (r * g) * d;
    }
    assert f * (p + r) * d * g == 2.0 * tp * tp by {
      assert 2.0 * p * r * d * g == 2.0 * (p * d) * (r * g);
    }
    assert f * ((p + r) * d * g) == f * (p + r) * d * g;
    assert tp * (f * (d + g)) == tp * (2.0 * tp) by {
      assert f * (tp * g + tp * d) == tp * (f * (d + g));
    }
    CancelLeft(tp, f * (d + g), 2.0 * tp);
  }

  /** Precision and recall are fractions, and F1 is twice the matches over all boxes. */
  lemma ScoresMeanWhatTheyShould(tp: nat, detected: nat, truth: nat)
    requires detected > 0 && truth > 0 && tp <= detected && tp <= truth
    ensures var s := ScoresOf(tp, detected, truth);
            && 0.0 <= s.precision <= 1.0 && 0.0 <= s.recall <= 1.0
            && s.f1 * (detected + truth) as real == 2.0 * tp as real
  {
    var s := ScoresOf(tp, detected, truth);
    FractionBounds(tp, detected);
    FractionBounds(tp, truth);
    if tp > 0 {
      var sum := s.precision + s.recall;
      assert s.f1 * sum == 2.0 * s.precision * s.recall;
      HarmonicMean(tp as real, s.precision, s.recall, detected as real, truth as real, s.f1);
    }
  }

  lemma MatchingStep(detected: seq<BboxMeta>, truth: seq<BboxMeta>, threshold: real, i: nat, x: Option<nat>)
    requires i < |detected|
    requires x == Pick(detected[i], truth, threshold, Used(Matching(detected, truth, threshold, i)), |truth|)
    ensures var m, next := Matching(detected, truth, threshold, i), Matching(detected, truth, threshold, i + 1);
            && TruePositives(next) == TruePositives(m) + (if x.Some? then 1 else 0)
            && Used(next) == Used(m) + if x.Some? then {x.value} else {}
  {
    var m := Matching(detected, truth, threshold, i);
    assert (m + [x])[..i] == m;
    UsedGrows(m, x);
  }

  /** One round of the outer loop: the detection takes its best free box, if there is one. */
  method TakeBest(detected: seq<BboxMeta>, truth: seq<BboxMeta>, threshold: real, i: nat, matched: array<bool>, tp: nat)
    returns (next: nat)
    requires i < |detected| && matched.Length == |truth| && tp == TruePositives(Matching(detected, truth, threshold, i))
    requires forall j | 0 <= j < |truth| :: matched[j] <==> j in Used(Matching(detected, truth, threshold, i))
    modifies matched
    ensures next == TruePositives(Matching(detected, truth, threshold, i + 1))
    ensures forall j | 0 <= j < |truth| :: matched[j] <==> j in Used(Matching(detected, truth, threshold, i + 1))
  {
    var bestGt := BestMatch(detected[i], truth, threshold, matched, Used(Matching(detected, truth, threshold, i)));
    MatchingStep(detected, truth, threshold, i, bestGt);
    next := tp;
    if bestGt.Some? {
      matched[bestGt.value] := true;
      next := tp + 1;
    }
  }

  /** The outer loop, over the detections: how many are matched. */
  method CountMatches(detected: seq<BboxMeta>, truth: seq<BboxMeta>, threshold: real) returns (tp: nat)
    ensures tp == TruePositives(Matching(detected, truth, threshold, |detected|))
  {
    var matched := new bool[|truth|](_ => false);
    tp := 0;
    for i := 0 to |detected|
      invariant tp == TruePositives(Matching(detected, truth, threshold, i))
      invariant forall j | 0 <= j < |truth| :: matched[j] <==> j in Used(Matching(detected, truth, threshold, i))
    {
      tp := TakeBest(detected, truth, threshold, i, matched, tp);
    }
  }

  /** What the scores of so many matches amount to, with the empty cases apart. */
  ghost predicate ScoresAre(s: Scores, tp: nat, detected: nat, truth: nat) {
    if detected == 0 && truth == 0 then s == Scores(1.0, 1.0, 1.0)
    else if detected == 0 || truth == 0 then s == Scores(0.0, 0.0, 0.0)
    else
      && s.precision * detected as real == tp as real && s.recall * truth as real == tp as real
      && 0.0 <= s.precision <= 1.0 && 0.0 <= s.recall <= 1.0
      && s.f1 * (detected + truth) as real == 2.0 * tp as real
  }

  lemma ScoresOfMatches(s: Scores, tp: nat, detected: nat, truth: nat)
    requires detected > 0 && truth > 0 && tp <= detected && tp <= truth && s == ScoresOf(tp, detected, truth)
    ensures ScoresAre(s, tp, detected, truth)
  {
    FractionBounds(tp, detected);
    FractionBounds(tp, truth);
    ScoresMeanWhatTheyShould(tp, detected, truth);
  }

  /** Precision is the matched part of the detections, recall the matched part of the ground truth, and F1
      twice the matches over all boxes. */
  method PrecisionRecall(detected: seq<BboxMeta>, truth: seq<BboxMeta>, threshold: real) returns (s: Scores)
    ensures ScoresAre(s, TruePositives(Matching(detected, truth, threshold, |detected|)), |detected|, |truth|)
    ensures |detected| > 0 && |truth| > 0 ==>
              s == ScoresOf(TruePositives(Matching(detected, truth, threshold, |detected|)), |detected|, |truth|)
  {
    if |detected| == 0 && |truth| == 0 {
      return Scores(1.0, 1.0, 1.0);
    }
    if |detected| == 0 || |truth| == 0 {
      return Scores(0.0, 0.0, 0.0);
    }
    var tp := CountMatches(detected, truth, threshold);
    TruePositivesBounded(detected, truth, threshold);
    s := ScoresOf(tp, |detected|, |truth|);
    ScoresOfMatches(s, tp, |detected|, |truth|);
  }
}
