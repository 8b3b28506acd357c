/** Bounding boxes and their overlap (face_detector.rs, detection_meta.rs, detection_validators.rs).
    Coordinates are `real`. */
module Boxes {

  datatype BboxMeta = BboxMeta(xMin: real, yMin: real, xMax: real, yMax: real, confidence: real,
                               imgWidth: nat, imgHeight: nat, name: string) {
    function Width(): real { xMax - xMin }

    function Height(): real { yMax - yMin }

    function Area(): real { Width() * Height() }

    // Coordinates in order.
    predicate WellFormed() {
      xMin <= xMax && yMin <= yMax
    }
  }

  datatype FaceDetection = FaceDetection(xMin: real, yMin: real, xMax: real, yMax: real, confidence: real) {
    function ToBboxMeta(imgWidth: nat, imgHeight: nat): BboxMeta {
      BboxMeta(xMin, yMin, xMax, yMax, confidence, imgWidth, imgHeight, "face")
    }
  }

  function Max(x: real, y: real): real {
    if x < y then y else x
  }

  function Min(x: real, y: real): real {
    if x < y then x else y
  }

  function Ratio(intersection: real, union: real): real {
    if union <= 0.0 then 0.0 else intersection / union
  }

  /** How long two intervals overlap. */
  function Shared(lo1: real, hi1: real, lo2: real, hi2: real): real {
    Max(Min(hi1, hi2) - Max(lo1, lo2), 0.0)
  }

  /** The overlap measure of the face detectors. */
  function Iou(a: FaceDetection, b: FaceDetection): real {
    var intersection := Shared(a.xMin, a.xMax, b.xMin, b.xMax) * Shared(a.yMin, a.yMax, b.yMin, b.yMax);
    var areaA := (a.xMax - a.xMin) * (a.yMax - a.yMin);
    var areaB := (b.xMax - b.xMin) * (b.yMax - b.yMin);
    Ratio(intersection, areaA + areaB - intersection)
  }

  function Intersection(a: BboxMeta, b: BboxMeta): real {
    Shared(a.xMin, a.xMax, b.xMin, b.xMax) * Shared(a.yMin, a.yMax, b.yMin, b.yMax)
  }

  /** The overlap measure of the validators. */
  function BboxIou(a: BboxMeta, b: BboxMeta): real {
    Ratio(Intersection(a, b), a.Area() + b.Area() - Intersection(a, b))
  }

  // ---- The overlap measure in terms of points ----

  predicate Between(t: real, lo: real, hi: real) {
    lo <= t <= hi
  }

  predicate HasPoint(b: BboxMeta, x: real, y: real) {
    Between(x, b.xMin, b.xMax) && Between(y, b.yMin, b.yMax)
  }

  ghost predicate CommonPoint(a: BboxMeta, b: BboxMeta, x: real, y: real) {
    HasPoint(a, x, y) && HasPoint(b, x, y)
  }

  ghost predicate InBoth(lo1: real, hi1: real, lo2: real, hi2: real, t: real) {
    Between(t, lo1, hi1) && Between(t, lo2, hi2)
  }

  lemma SharedIsLength(lo1: real, hi1: real, lo2: real, hi2: real, lo: real, hi: real)
    requires lo <= hi && forall t: real :: InBoth(lo1, hi1, lo2, hi2, t) <==> Between(t, lo, hi)
    ensures Shared(lo1, hi1, lo2, hi2) == hi - lo
  {
    assert Between(lo, lo, hi) && Between(hi, lo, hi);
    assert InBoth(lo1, hi1, lo2, hi2, lo) && InBoth(lo1, hi1, lo2, hi2, hi);
    assert InBoth(lo1, hi1, lo2, hi2, Max(lo1, lo2)) && InBoth(lo1, hi1, lo2, hi2, Min(hi1, hi2));
  }

  /** The common points of two boxes form the box c. */
  ghost predicate MeetIn(a: BboxMeta, b: BboxMeta, c: BboxMeta) {
    c.WellFormed() && forall x: real, y: real :: CommonPoint(a, b, x, y) <==> HasPoint(c, x, y)
  }

  lemma MeetByCoordinate(a: BboxMeta, b: BboxMeta, c: BboxMeta, t: real)
    requires MeetIn(a, b, c)
    ensures InBoth(a.xMin, a.xMax, b.xMin, b.xMax, t) <==> Between(t, c.xMin, c.xMax)
    ensures InBoth(a.yMin, a.yMax, b.yMin, b.yMax, t) <==> Between(t, c.yMin, c.yMax)
  {
    assert CommonPoint(a, b, c.xMin, c.yMin) <==> HasPoint(c, c.xMin, c.yMin);
    assert CommonPoint(a, b, t, c.yMin) <==> HasPoint(c, t, c.yMin);
    assert CommonPoint(a, b, c.xMin, t) <==> HasPoint(c, c.xMin, t);
  }

  lemma IntersectionIsArea(a: BboxMeta, b: BboxMeta, c: BboxMeta)
    requires MeetIn(a, b, c)
    ensures Intersection(a, b) == (c.xMax - c.xMin) * (c.yMax - c.yMin)
  {
    var w, h := c.xMax - c.xMin, c.yMax - c.yMin;
    assert Shared(a.xMin, a.xMax, b.xMin, b.xMax) == w && Shared(a.yMin, a.yMax, b.yMin, b.yMax) == h by {
      forall t: real
        ensures InBoth(a.xMin, a.xMax, b.xMin, b.xMax, t) <==> Between(t, c.xMin, c.xMax)
        ensures InBoth(a.yMin, a.yMax, b.yMin, b.yMax, t) <==> Between(t, c.yMin, c.yMax)
      {
        MeetByCoordinate(a, b, c, t);
      }
      SharedIsLength(a.xMin, a.xMax, b.xMin, b.xMax, c.xMin, c.xMax);
      SharedIsLength(a.yMin, a.yMax, b.yMin, b.yMax, c.yMin, c.yMax);
    }
  }

  lemma AreaIsProduct(b: BboxMeta)
    ensures b.Area() == (b.xMax - b.xMin) * (b.yMax - b.yMin)
  {
  }

  lemma RatioTimes(i: real, u: real)
    ensures u > 0.0 ==> Ratio(i, u) * u == i
    ensures u <= 0.0 || i == 0.0 ==> Ratio(i, u) == 0.0
  {
  }

  /** The overlap of two boxes is the area of the points they share over the area of the points they have. */
  lemma IouIsSharedArea(a: BboxMeta, b: BboxMeta, c: BboxMeta, areaA: real, areaB: real, shared: real)
    requires MeetIn(a, b, c) && shared == (c.xMax - c.xMin) * (c.yMax - c.yMin)
    requires areaA == (a.xMax - a.xMin) * (a.yMax - a.yMin) && areaB == (b.xMax - b.xMin) * (b.yMax - b.yMin)
    ensures var all := areaA + areaB - shared;
            if all > 0.0 then BboxIou(a, b) * all == shared else BboxIou(a, b) == 0.0
  {
    IntersectionIsArea(a, b, c);
    AreaIsProduct(a);
    AreaIsProduct(b);
    RatioTimes(shared, areaA + areaB - shared);
  }

  /** Boxes without a common point do not overlap. */
  lemma ApartIsZero(a: BboxMeta, b: BboxMeta)
    requires a.WellFormed() && b.WellFormed() && forall x: real, y: real :: !CommonPoint(a, b, x, y)
    ensures BboxIou(a, b) == 0.0
  {
    assert !CommonPoint(a, b, Max(a.xMin, b.xMin), Max(a.yMin, b.yMin));
    RatioTimes(0.0, a.Area() + b.Area());
    if Shared(a.xMin, a.xMax, b.xMin, b.xMax) != 0.0 {
      assert Shared(a.yMin, a.yMax, b.yMin, b.yMax) == 0.0;
    }
    assert Intersection(a, b) == 0.0;
  }

  lemma SharedSymmetric(lo1: real, hi1: real, lo2: real, hi2: real)
    ensures Shared(lo1, hi1, lo2, hi2) == Shared(lo2, hi2, lo1, hi1)
  {
  }

  lemma IouSymmetric(a: FaceDetection, b: FaceDetection)
    ensures Iou(a, b) == Iou(b, a)
  {
    SharedSymmetric(a.xMin, a.xMax, b.xMin, b.xMax);
    SharedSymmetric(a.yMin, a.yMax, b.yMin, b.yMax);
  }

  /** The detectors and the validators measure the same overlap. */
  lemma IouAgrees(a: FaceDetection, b: FaceDetection, w: nat, h: nat)
    ensures BboxIou(a.ToBboxMeta(w, h), b.ToBboxMeta(w, h)) == Iou(a, b)
  {
    var x, y := a.ToBboxMeta(w, h), b.ToBboxMeta(w, h);
    assert x.Area() == (a.xMax - a.xMin) * (a.yMax - a.yMin);
    assert y.Area() == (b.xMax - b.xMin) * (b.yMax - b.yMin);
    assert Intersection(x, y) == Shared(a.xMin, a.xMax, b.xMin, b.xMax) * Shared(a.yMin, a.yMax, b.yMin, b.yMax);
  }

  lemma ProductMonotone(x: real, y: real, p: real, q: real)
    requires 0.0 <= x <= p && 0.0 <= y <= q
    ensures 0.0 <= x * y <= p * q
  {
    assert x * y <= p * y;
    assert p * y <= p * q;
  }

  lemma IntersectionBounds(a: BboxMeta, b: BboxMeta)
    requires a.WellFormed() && b.WellFormed()
    ensures 0.0 <= Intersection(a, b) <= a.Area()
  {
    ProductMonotone(Shared(a.xMin, a.xMax, b.xMin, b.xMax), Shared(a.yMin, a.yMax, b.yMin, b.yMax), a.Width(), a.Height());
  }

  lemma RatioBounds(i: real, u: real)
    requires 0.0 <= i <= u
    ensures 0.0 <= Ratio(i, u) <= 1.0
    ensures 0.0 < i == u ==> Ratio(i, u) == 1.0
  {
    if u > 0.0 {
      assert i / u * u == i;
    }
  }

  /** Overlaps of well-formed boxes lie in [0, 1]. */
  lemma BboxIouBounds(a: BboxMeta, b: BboxMeta)
    requires a.WellFormed() && b.WellFormed()
    ensures 0.0 <= BboxIou(a, b) <= 1.0
  {
    IntersectionBounds(a, b);
    IntersectionBounds(b, a);
    SharedSymmetric(a.xMin, a.xMax, b.xMin, b.xMax);
    SharedSymmetric(a.yMin, a.yMax, b.yMin, b.yMax);
    RatioBounds(Intersection(a, b), a.Area() + b.Area() - Intersection(a, b));
  }

  /** A well-formed box with area overlaps itself fully. */
  lemma BboxIouSelf(a: BboxMeta)
    requires a.WellFormed() && a.Area() > 0.0
    ensures BboxIou(a, a) == 1.0
  {
    assert Shared(a.xMin, a.xMax, a.xMin, a.xMax) == a.Width();
    assert Shared(a.yMin, a.yMax, a.yMin, a.yMax) == a.Height();
    RatioBounds(a.Area(), a.Area());
  }
}
