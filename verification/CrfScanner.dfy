/** Entity spans from BIO labels, and the whole CRF scan (crf_scanner.rs).

    Feature extraction and the confidence curve are parameters. */
module CrfScanner {
  import opened Text
  import opened Pii
  import opened Tokenizer
  import Viterbi

  const LABEL_B_PER := 1
  const LABEL_I_PER := 2
  const LABEL_B_LOC := 3
  const LABEL_I_LOC := 4
  const LABEL_B_ORG := 5
  const LABEL_I_ORG := 6
  const LABEL_B_HEALTH := 7
  const LABEL_I_HEALTH := 8
  const LABEL_B_CHILD := 9
  const LABEL_I_CHILD := 10

  predicate IsBTag(tag: nat) {
    tag in {LABEL_B_PER, LABEL_B_LOC, LABEL_B_ORG, LABEL_B_HEALTH, LABEL_B_CHILD}
  }

  predicate IsITag(tag: nat) {
    tag in {LABEL_I_PER, LABEL_I_LOC, LABEL_I_ORG, LABEL_I_HEALTH, LABEL_I_CHILD}
  }

  function TypeOf(tag: nat): Option<PiiType> {
    if tag == LABEL_B_PER || tag == LABEL_I_PER then Some(Person)
    else if tag == LABEL_B_LOC || tag == LABEL_I_LOC then Some(Location)
    else if tag == LABEL_B_ORG || tag == LABEL_I_ORG then Some(Organization)
    else if tag == LABEL_B_HEALTH || tag == LABEL_I_HEALTH then Some(HealthKeyword)
    else if tag == LABEL_B_CHILD || tag == LABEL_I_CHILD then Some(ChildKeyword)
    else None
  }

  // ---- Segments: what the labels mean ----

  /** Tokens first..last form one entity; total and count give its average score. */
  datatype Segment = Segment(piiType: PiiType, first: nat, last: nat, total: real, count: nat)

  /** Token i belongs to the entity of token i - 1: an inside tag of the same type. */
  predicate Continues(labels: seq<nat>, i: nat)
    requires i < |labels|
  {
    i > 0 && IsITag(labels[i]) && TypeOf(labels[i - 1]) == TypeOf(labels[i])
  }

  function SegmentEnd(labels: seq<nat>, i: nat): (j: nat)
    requires i < |labels|
    ensures i <= j < |labels|
    decreases |labels| - i
  {
    if i + 1 < |labels| && Continues(labels, i + 1) then SegmentEnd(labels, i + 1) else i
  }

  function Sum(scores: seq<real>, i: nat, j: nat): real
    requires i <= j < |scores|
  {
    if i == j then scores[i] else Sum(scores, i, j - 1) + scores[j]
  }

  function SegmentAt(labels: seq<nat>, scores: seq<real>, i: nat): Segment
    requires i < |labels| == |scores| && TypeOf(labels[i]).Some?
  {
    var j := SegmentEnd(labels, i);
    Segment(TypeOf(labels[i]).value, i, j, Sum(scores, i, j), j - i + 1)
  }

  function SegmentsFrom(labels: seq<nat>, scores: seq<real>, i: nat): seq<Segment>
    requires i <= |labels| == |scores|
    decreases |labels| - i
  {
    if i == |labels| then []
    else if TypeOf(labels[i]).None? then SegmentsFrom(labels, scores, i + 1)
    else [SegmentAt(labels, scores, i)] + SegmentsFrom(labels, scores, SegmentEnd(labels, i) + 1)
  }

  /** A segment is a maximal chain of continuations. */
  ghost predicate SegmentOk(labels: seq<nat>, scores: seq<real>, s: Segment)
    requires |labels| == |scores|
  {
    && s.first <= s.last < |labels|
    && !Continues(labels, s.first)
    && (forall k | s.first < k <= s.last :: Continues(labels, k))
    && (s.last + 1 < |labels| ==> !Continues(labels, s.last + 1))
    && (forall k | s.first <= k <= s.last :: TypeOf(labels[k]) == Some(s.piiType))
    && s.total == Sum(scores, s.first, s.last) && s.count == s.last - s.first + 1
  }

  ghost predicate Within(s: Segment, k: int) {
    s.first <= k <= s.last
  }

  lemma {:induction false} SegmentEndIsMaximal(labels: seq<nat>, i: nat)
    requires i < |labels|
    ensures var j := SegmentEnd(labels, i);
            && (forall k | i < k <= j :: Continues(labels, k))
            && (forall k | i <= k <= j :: TypeOf(labels[k]) == TypeOf(labels[i]))
            && (j + 1 < |labels| ==> !Continues(labels, j + 1))
    decreases |labels| - i
  {
    if i + 1 < |labels| && Continues(labels, i + 1) {
      SegmentEndIsMaximal(labels, i + 1);
    }
  }

  /** Segments are well formed, come in order and share no token. */
  ghost predicate SegmentsOk(labels: seq<nat>, scores: seq<real>, segs: seq<Segment>, from: nat)
    requires |labels| == |scores|
  {
    && (forall a | 0 <= a < |segs| :: SegmentOk(labels, scores, segs[a]) && from <= segs[a].first)
    && (forall a, b | 0 <= a < b < |segs| :: segs[a].last < segs[b].first)
  }

  ghost predicate Covered(segs: seq<Segment>, k: int) {
    exists s :: s in segs && Within(s, k)
  }

  lemma PrependSegment(labels: seq<nat>, scores: seq<real>, s: Segment, rest: seq<Segment>)
    requires |labels| == |scores| && SegmentOk(labels, scores, s)
    requires SegmentsOk(labels, scores, rest, s.last + 1)
    ensures SegmentsOk(labels, scores, [s] + rest, s.first)
  {
    forall r | r in rest
      ensures SegmentOk(labels, scores, r) && s.last < r.first
    {
      var a :| 0 <= a < |rest| && rest[a] == r;
    }
  }

  lemma {:induction false} SegmentsAreOk(labels: seq<nat>, scores: seq<real>, i: nat)
    requires i <= |labels| == |scores| && (i < |labels| ==> !Continues(labels, i))
    ensures SegmentsOk(labels, scores, SegmentsFrom(labels, scores, i), i)
    decreases |labels| - i
  {
    if i < |labels| {
      if TypeOf(labels[i]).None? {
        SegmentsAreOk(labels, scores, i + 1);
      } else {
        var j := SegmentEnd(labels, i);
        SegmentEndIsMaximal(labels, i);
        SegmentsAreOk(labels, scores, j + 1);
        PrependSegment(labels, scores, SegmentAt(labels, scores, i), SegmentsFrom(labels, scores, j + 1));
      }
    }
  }

  lemma {:induction false} NothingBefore(labels: seq<nat>, scores: seq<real>, i: nat, k: nat)
    requires k < i <= |labels| == |scores|
    ensures !Covered(SegmentsFrom(labels, scores, i), k)
    decreases |labels| - i
  {
    if i < |labels| {
      if TypeOf(labels[i]).None? {
        NothingBefore(labels, scores, i + 1, k);
      } else {
        NothingBefore(labels, scores, SegmentEnd(labels, i) + 1, k);
      }
    }
  }

  lemma {:induction false} CoveredIffTagged(labels: seq<nat>, scores: seq<real>, i: nat, k: nat)
    requires i <= k < |labels| == |scores|
    ensures Covered(SegmentsFrom(labels, scores, i), k) <==> TypeOf(labels[k]).Some?
    decreases |labels| - i
  {
    if TypeOf(labels[i]).None? {
      if i < k {
        CoveredIffTagged(labels, scores, i + 1, k);
      } else {
        NothingBefore(labels, scores, i + 1, k);
      }
    } else {
      var j, s := SegmentEnd(labels, i), SegmentAt(labels, scores, i);
      var rest := SegmentsFrom(labels, scores, j + 1);
      SegmentEndIsMaximal(labels, i);
      if j < k {
        CoveredIffTagged(labels, scores, j + 1, k);
        assert forall r | r in [s] + rest :: r == s || r in rest;
        assert Covered([s] + rest, k) <==> Covered(rest, k);
      } else {
        assert s in [s] + rest && Within(s, k);
      }
    }
  }

  /** Before the confidence filter: every tagged token is in exactly one segment, of its own type,
      and untagged tokens are in none. */
  lemma SegmentsPartitionTags(labels: seq<nat>, scores: seq<real>, k: nat)
    requires k < |labels| == |scores|
    ensures var segs := SegmentsFrom(labels, scores, 0);
            && SegmentsOk(labels, scores, segs, 0)
            && (Covered(segs, k) <==> TypeOf(labels[k]).Some?)
            && (forall a, b | 0 <= a < |segs| && 0 <= b < |segs| && Within(segs[a], k) && Within(segs[b], k) ::
                  a == b && TypeOf(labels[k]) == Some(segs[a].piiType))
  {
    SegmentsAreOk(labels, scores, 0);
    CoveredIffTagged(labels, scores, 0, k);
  }

  // ---- Runs of labels, read off the label numbers ----

  /** The number of the entity type: labels 2t + 1 and 2t + 2 begin and continue an entity of type t. */
  function Kind(tag: nat): (t: int) {
    (tag - 1) / 2
  }

  /** Token i goes on with the entity of the token before it. */
  predicate Joined(labels: seq<nat>, i: nat) {
    && 0 < i < |labels| && labels[i] % 2 == 0 && 2 <= labels[i] <= 10
    && Kind(labels[i - 1]) == Kind(labels[i])
  }

  /** Tokens a..b are one entity: all joined to the first, and neither end can go further. */
  ghost predicate IsRun(labels: seq<nat>, a: nat, b: nat) {
    && a <= b < |labels| && 1 <= labels[a] <= 10
    && !Joined(labels, a) && !Joined(labels, b + 1)
    && forall k: nat | a < k <= b :: Joined(labels, k)
  }

  function TypeOfKind(t: int): PiiType {
    match t
    case 0 => Person
    case 1 => Location
    case 2 => Organization
    case 3 => HealthKeyword
    case _ => ChildKeyword
  }

  lemma TypeIsKind(tag: nat)
    ensures TypeOf(tag) == if 1 <= tag <= 10 then Some(TypeOfKind(Kind(tag))) else None
    ensures IsITag(tag) <==> tag % 2 == 0 && 2 <= tag <= 10
  {
  }

  lemma JoinedIffContinues(labels: seq<nat>, i: nat)
    requires i < |labels|
    ensures Joined(labels, i) <==> Continues(labels, i)
  {
    TypeIsKind(labels[i]);
    if i > 0 {
      TypeIsKind(labels[i - 1]);
    }
  }

  lemma SegmentIsRun(labels: seq<nat>, scores: seq<real>, s: Segment)
    requires |labels| == |scores|
    requires SegmentOk(labels, scores, s)
    ensures IsRun(labels, s.first, s.last) && s.piiType == TypeOfKind(Kind(labels[s.first]))
  {
    TypeIsKind(labels[s.first]);
    JoinedIffContinues(labels, s.first);
    if s.last + 1 < |labels| {
      JoinedIffContinues(labels, s.last + 1);
    }
    forall k: nat | s.first < k <= s.last
      ensures Joined(labels, k)
    {
      JoinedIffContinues(labels, k);
    }
  }

  /** Two runs that share a token are one. */
  lemma RunsThatMeet(labels: seq<nat>, a: nat, b: nat, x: nat, y: nat)
    requires IsRun(labels, a, b) && IsRun(labels, x, y) && x <= a <= y
    ensures a == x && b == y
  {
    var p: nat, q: nat := b + 1, y + 1;
    assert x < a ==> Joined(labels, a);
    assert b < y ==> Joined(labels, p);
    assert y < b ==> Joined(labels, q);
  }

  ghost predicate IsSegment(labels: seq<nat>, scores: seq<real>, s: Segment)
    requires |labels| == |scores|
  {
    && IsRun(labels, s.first, s.last) && s.piiType == TypeOfKind(Kind(labels[s.first]))
    && s.total == Sum(scores, s.first, s.last) && s.count == s.last - s.first + 1
  }

  /** The segments are exactly the runs. */
  lemma SegmentsAreRuns(labels: seq<nat>, scores: seq<real>, s: Segment)
    requires |labels| == |scores|
    ensures s in SegmentsFrom(labels, scores, 0) <==> IsSegment(labels, scores, s)
  {
    var segs := SegmentsFrom(labels, scores, 0);
    SegmentsAreOk(labels, scores, 0);
    if s in segs {
      SegmentIsRun(labels, scores, s);
    }
    if IsSegment(labels, scores, s) {
      TypeIsKind(labels[s.first]);
      CoveredIffTagged(labels, scores, 0, s.first);
      var x :| x in segs && Within(x, s.first);
      SegmentIsRun(labels, scores, x);
      RunsThatMeet(labels, s.first, s.last, x.first, x.last);
      assert x == s;
    }
  }

  /** The sum of scores is additive, and that of one score is the score. */
  lemma {:induction false} SumAdds(scores: seq<real>, i: nat, k: nat, j: nat)
    requires i <= k < j < |scores|
    ensures Sum(scores, i, j) == Sum(scores, i, k) + Sum(scores, k + 1, j) && Sum(scores, i, i) == scores[i]
    decreases j
  {
    if k + 1 < j {
      SumAdds(scores, i, k, j - 1);
    }
  }

  // ---- Spans ----

  /** What the emitter reads: the text, its tokens, and the confidence filter. */
  datatype Context = Context(text: string, tokens: seq<Token>, sigmoid: real -> real, threshold: real) {
    ghost predicate Valid() {
      TokensOrdered(text, tokens, 0)
    }
  }

  lemma SpanIsSlice(text: string, tokens: seq<Token>, a: nat, b: nat)
    requires TokensOrdered(text, tokens, 0) && a <= b < |tokens|
    ensures tokens[a].byteStart < tokens[b].byteEnd <= ByteAt(text, |text|)
    ensures ByteSlice(text, tokens[a].byteStart, tokens[b].byteEnd).Some?
  {
    var s, t := tokens[a], tokens[b];
    assert TokenOf(text, s) && TokenOf(text, t);
    var i, j := PositionOf(text, s.byteStart).value, PositionOf(text, t.byteEnd).value;
    assert s.byteStart < t.byteEnd;
    if j < i {
      ByteAtMonotone(text, j, i);
    }
    ByteAtMonotone(text, j, |text|);
  }

  /** The match of one segment, unless its confidence is too low. */
  function PushEntity(c: Context, s: Segment): (ms: seq<PiiMatch>)
    requires c.Valid() && s.first <= s.last < |c.tokens| && s.count > 0
  {
    var confidence := c.sigmoid(s.total / s.count as real);
    if confidence < c.threshold then []
    else
      var from, to := c.tokens[s.first].byteStart, c.tokens[s.last].byteEnd;
      SpanIsSlice(c.text, c.tokens, s.first, s.last);
      if to <= from || to > ByteAt(c.text, |c.text|) then []
      else [PiiMatch(s.piiType, from, to, ByteSlice(c.text, from, to).value, None, confidence)]
  }

  ghost predicate InOrder(segs: seq<Segment>, n: nat) {
    && (forall a | 0 <= a < |segs| :: segs[a].first <= segs[a].last < n && segs[a].count > 0)
    && (forall a, b | 0 <= a < b < |segs| :: segs[a].last < segs[b].first)
  }

  ghost function Emit(c: Context, segs: seq<Segment>): seq<PiiMatch>
    requires c.Valid() && InOrder(segs, |c.tokens|)
  {
    if segs == [] then [] else PushEntity(c, segs[0]) + Emit(c, segs[1..])
  }

  /** Spans are byte slices of the text, in order, with at least one byte between two of them. */
  ghost predicate SpansOk(text: string, ms: seq<PiiMatch>) {
    && (forall a | 0 <= a < |ms| :: ms[a].start < ms[a].end <= ByteAt(text, |text|)
                                 && ByteSlice(text, ms[a].start, ms[a].end) == Some(ms[a].rawValue))
    && (forall a, b | 0 <= a < b < |ms| :: ms[a].end < ms[b].start)
  }

  ghost predicate StartsFrom(ms: seq<PiiMatch>, from: nat) {
    forall a | 0 <= a < |ms| :: from <= ms[a].start
  }

  lemma PushEntityOk(c: Context, s: Segment)
    requires c.Valid() && s.first <= s.last < |c.tokens| && s.count > 0
    ensures var ms := PushEntity(c, s);
            && SpansOk(c.text, ms) && |ms| <= 1
            && (forall a | 0 <= a < |ms| ::
                  ms[a].start == c.tokens[s.first].byteStart && ms[a].end == c.tokens[s.last].byteEnd)
  {
    SpanIsSlice(c.text, c.tokens, s.first, s.last);
  }

  /** Spans that start at one offset and end before another, in front of spans that start from there on. */
  lemma SpansJoin(text: string, head: seq<PiiMatch>, rest: seq<PiiMatch>, start: nat, from: nat)
    requires SpansOk(text, head) && SpansOk(text, rest) && |head| <= 1 && StartsFrom(rest, from) && start <= from
    requires forall a | 0 <= a < |head| :: head[a].start == start && head[a].end < from
    ensures SpansOk(text, head + rest) && StartsFrom(head + rest, start)
  {
    var all := head + rest;
    assert forall a | |head| <= a < |all| :: all[a] == rest[a - |head|];
  }

  lemma EmitFirst(c: Context, segs: seq<Segment>)
    requires c.Valid() && InOrder(segs, |c.tokens|) && segs != []
    ensures InOrder(segs[1..], |c.tokens|) && Emit(c, segs) == PushEntity(c, segs[0]) + Emit(c, segs[1..])
  {
  }

  lemma TokensApart(c: Context, x: Segment, y: Segment)
    requires c.Valid() && x.first <= x.last < y.first < |c.tokens|
    ensures c.tokens[x.first].byteStart <= c.tokens[y.first].byteStart
    ensures c.tokens[x.last].byteEnd < c.tokens[y.first].byteStart
  {
    assert TokenOf(c.text, c.tokens[x.first]);
  }

  /** Where the spans after the first segment may start. */
  ghost function NextStart(c: Context, segs: seq<Segment>): (from: nat)
    requires c.Valid() && InOrder(segs, |c.tokens|) && segs != []
    ensures c.tokens[segs[0].last].byteEnd < from && c.tokens[segs[0].first].byteStart <= from
  {
    SpanIsSlice(c.text, c.tokens, segs[0].first, segs[0].last);
    if |segs| == 1 then c.tokens[segs[0].last].byteEnd + 1
    else
      TokensApart(c, segs[0], segs[1]);
      c.tokens[segs[1].first].byteStart
  }

  /** The confidence filter and the byte spans: slices of the text, in order and disjoint. */
  lemma {:induction false} EmittedSpansDisjoint(c: Context, segs: seq<Segment>)
    requires c.Valid() && InOrder(segs, |c.tokens|)
    ensures SpansOk(c.text, Emit(c, segs))
    ensures segs != [] ==> StartsFrom(Emit(c, segs), c.tokens[segs[0].first].byteStart)
  {
    if segs != [] {
      var x, tail := segs[0], segs[1..];
      EmitFirst(c, segs);
      EmittedSpansDisjoint(c, tail);
      PushEntityOk(c, x);
      assert |segs| > 1 ==> tail[0] == segs[1];
      SpansJoin(c.text, PushEntity(c, x), Emit(c, tail), c.tokens[x.first].byteStart, NextStart(c, segs));
    }
  }

  lemma {:induction false} EmittedAreConfident(c: Context, segs: seq<Segment>)
    requires c.Valid() && InOrder(segs, |c.tokens|)
    ensures forall k | 0 <= k < |Emit(c, segs)| ::
              Emit(c, segs)[k].confidence >= c.threshold && Emit(c, segs)[k].jsonPath == None
  {
    if segs != [] {
      EmittedAreConfident(c, segs[1..]);
    }
  }

  /** The match of the entity that tokens a..b form: its type, its bytes, and the confidence that its mean score
      gives, which must reach the threshold. */
  ghost predicate MatchOfRun(c: Context, labels: seq<nat>, scores: seq<real>, a: nat, b: nat, m: PiiMatch)
    requires |labels| == |scores| == |c.tokens|
  {
    && IsRun(labels, a, b)
    && m.piiType == TypeOfKind(Kind(labels[a])) && m.jsonPath == None
    && m.start == c.tokens[a].byteStart && m.end == c.tokens[b].byteEnd
    && ByteSlice(c.text, m.start, m.end) == Some(m.rawValue)
    && m.confidence == c.sigmoid(Sum(scores, a, b) / (b - a + 1) as real) >= c.threshold
  }

  lemma PushEntityExactly(c: Context, labels: seq<nat>, scores: seq<real>, s: Segment, m: PiiMatch)
    requires c.Valid() && |labels| == |scores| == |c.tokens| && IsSegment(labels, scores, s)
    ensures m in PushEntity(c, s) <==> MatchOfRun(c, labels, scores, s.first, s.last, m)
  {
    SpanIsSlice(c.text, c.tokens, s.first, s.last);
  }

  lemma {:induction false} EmitMembers(c: Context, segs: seq<Segment>, m: PiiMatch)
    requires c.Valid() && InOrder(segs, |c.tokens|)
    ensures m in Emit(c, segs) <==> exists k :: 0 <= k < |segs| && m in PushEntity(c, segs[k])
  {
    if segs != [] {
      EmitFirst(c, segs);
      EmitMembers(c, segs[1..], m);
      if m in Emit(c, segs[1..]) {
        var k :| 0 <= k < |segs[1..]| && m in PushEntity(c, segs[1..][k]);
        assert m in PushEntity(c, segs[k + 1]);
      }
      if k :| 0 <= k < |segs| && m in PushEntity(c, segs[k]) {
        assert k > 0 ==> segs[1..][k - 1] == segs[k];
      }
    }
  }

  // ---- The decoder ----

  lemma InOrderFrom(labels: seq<nat>, scores: seq<real>, i: nat)
    requires i <= |labels| == |scores|
    ensures InOrder(SegmentsFrom(labels, scores, i), |labels|)
    ensures forall s | s in SegmentsFrom(labels, scores, i) :: i <= s.first
    decreases |labels| - i
  {
    if i < |labels| && TypeOf(labels[i]).Some? {
      InOrderFrom(labels, scores, SegmentEnd(labels, i) + 1);
    }
  }

  /** All matches still to come when the decoder stands before token i with the given entity open. */
  ghost function Pending(c: Context, labels: seq<nat>, scores: seq<real>, current: Option<Segment>, i: nat): seq<PiiMatch>
    requires c.Valid() && i <= |labels| == |scores| == |c.tokens|
    requires current.Some? ==> current.value.first < i && TypeOf(labels[current.value.first]).Some?
  {
    var k := if current.Some? then current.value.first else i;
    InOrderFrom(labels, scores, k);
    Emit(c, SegmentsFrom(labels, scores, k))
  }

  /** The open entity is the part before token i of the segment it will become. */
  ghost predicate Open(labels: seq<nat>, scores: seq<real>, current: Option<Segment>, i: nat)
    requires i <= |labels| == |scores|
  {
    match current
    case None => i > 0 ==> TypeOf(labels[i - 1]).None?
    case Some(s) =>
      && s.first <= s.last == i - 1
      && TypeOf(labels[s.first]) == TypeOf(labels[s.last]) == Some(s.piiType)
      && SegmentEnd(labels, s.first) == SegmentEnd(labels, s.last)
      && s.total == Sum(scores, s.first, s.last) && s.count == i - s.first
  }

  /** Closing an entity at the first token that does not continue it emits its segment. */
  lemma CloseSegment(c: Context, labels: seq<nat>, scores: seq<real>, s: Segment, i: nat)
    requires c.Valid() && 0 < i <= |labels| == |scores| == |c.tokens|
    requires Open(labels, scores, Some(s), i)
    requires i < |labels| ==> !Continues(labels, i)
    ensures Pending(c, labels, scores, Some(s), i) == PushEntity(c, s) + Pending(c, labels, scores, None, i)
  {
    assert SegmentAt(labels, scores, s.first) == s;
    var segs := SegmentsFrom(labels, scores, s.first);
    assert segs == [s] + SegmentsFrom(labels, scores, i);
    assert segs[1..] == SegmentsFrom(labels, scores, i);
  }

  function Extended(s: Segment, i: nat, score: real): Segment {
    s.(last := i, total := s.total + score, count := s.count + 1)
  }

  lemma ContinueSegment(c: Context, labels: seq<nat>, scores: seq<real>, s: Segment, i: nat)
    requires c.Valid() && i < |labels| == |scores| == |c.tokens|
    requires Open(labels, scores, Some(s), i) && IsITag(labels[i]) && TypeOf(labels[i]) == Some(s.piiType)
    ensures var t := Extended(s, i, scores[i]);
            && Open(labels, scores, Some(t), i + 1)
            && Pending(c, labels, scores, Some(t), i + 1) == Pending(c, labels, scores, Some(s), i)
  {
    assert Continues(labels, i);
  }

  function Started(tag: nat, i: nat, score: real): Option<Segment> {
    var piiType := TypeOf(tag);
    if (IsBTag(tag) || IsITag(tag)) && piiType.Some? then Some(Segment(piiType.value, i, i, score, 1)) else None
  }

  lemma StartSegment(c: Context, labels: seq<nat>, scores: seq<real>, i: nat)
    requires c.Valid() && i < |labels| == |scores| == |c.tokens|
    ensures var t := Started(labels[i], i, scores[i]);
            && Open(labels, scores, t, i + 1)
            && Pending(c, labels, scores, t, i + 1) == Pending(c, labels, scores, None, i)
  {
  }

  /** Emits the open entity, if any, before a token that does not continue it. */
  method Flush(c: Context, ghost labels: seq<nat>, ghost scores: seq<real>, ghost i: nat,
               current: Option<Segment>, entities: seq<PiiMatch>)
    returns (flushed: seq<PiiMatch>)
    requires c.Valid() && i <= |labels| == |scores| == |c.tokens| && Open(labels, scores, current, i)
    requires current.Some? && i < |labels| ==> !Continues(labels, i)
    ensures flushed + Pending(c, labels, scores, None, i) == entities + Pending(c, labels, scores, current, i)
  {
    flushed := entities;
    if current.Some? {
      CloseSegment(c, labels, scores, current.value, i);
      flushed := entities + PushEntity(c, current.value);
      assert flushed + Pending(c, labels, scores, None, i)
          == entities + (PushEntity(c, current.value) + Pending(c, labels, scores, None, i));
    }
  }

  /** One round of the decoder's loop. */
  method TakeTag(c: Context, labels: seq<nat>, scores: seq<real>, i: nat, current: Option<Segment>,
                 entities: seq<PiiMatch>)
    returns (next: Option<Segment>, emitted: seq<PiiMatch>)
    requires c.Valid() && i < |labels| == |scores| == |c.tokens| && Open(labels, scores, current, i)
    ensures Open(labels, scores, next, i + 1)
    ensures emitted + Pending(c, labels, scores, next, i + 1) == entities + Pending(c, labels, scores, current, i)
  {
    var tag := labels[i];
    if current.Some? && IsITag(tag) && TypeOf(tag) == Some(current.value.piiType) {
      ContinueSegment(c, labels, scores, current.value, i);
      return Some(Extended(current.value, i, scores[i])), entities;
    }
    emitted := Flush(c, labels, scores, i, current, entities);
    // A beginning tag, or an inside tag with nothing of its type open, starts an entity.
    StartSegment(c, labels, scores, i);
    next := Started(tag, i, scores[i]);
  }

  method DecodeEntities(c: Context, labels: seq<nat>, scores: seq<real>) returns (entities: seq<PiiMatch>)
    requires c.Valid() && |labels| == |scores| == |c.tokens|
    ensures entities == Pending(c, labels, scores, None, 0)
  {
    entities := [];
    var current: Option<Segment> := None;
    for i := 0 to |labels|
      invariant Open(labels, scores, current, i)
      invariant entities + Pending(c, labels, scores, current, i) == Pending(c, labels, scores, None, 0)
    {
      current, entities := TakeTag(c, labels, scores, i, current, entities);
    }
    entities := Flush(c, labels, scores, |labels|, current, entities);
    assert Pending(c, labels, scores, None, |labels|) == [];
  }

  /** The features of every token. */
  function FeaturesOf(extract: (seq<Token>, nat) -> seq<string>, tokens: seq<Token>): (fs: Viterbi.Features)
    ensures |fs| == |tokens| && forall i: nat | i < |tokens| :: fs[i] == extract(tokens, i)
  {
    seq(|tokens|, (i: nat) => extract(tokens, i))
  }

  /** The matches are what the segments of the optimal labelling emit. */
  ghost predicate DecodedFrom(c: Context, m: Viterbi.Model, fs: Viterbi.Features, matches: seq<PiiMatch>)
    requires m.Valid() && |fs| > 0
  {
    && c.Valid() && |fs| == |c.tokens|
    && exists labels, scores :: Viterbi.Optimal(m, fs, labels, scores) && matches == Pending(c, labels, scores, None, 0)
  }

  /** There is only one such labelling, and so one list of matches. */
  lemma DecodedFromIsUnique(c: Context, m: Viterbi.Model, fs: Viterbi.Features, matches: seq<PiiMatch>,
                            others: seq<PiiMatch>)
    requires m.Valid() && |fs| > 0 && DecodedFrom(c, m, fs, matches) && DecodedFrom(c, m, fs, others)
    ensures matches == others
  {
    var labels, scores :| Viterbi.Optimal(m, fs, labels, scores) && matches == Pending(c, labels, scores, None, 0);
    var labels', scores' :| Viterbi.Optimal(m, fs, labels', scores') && others == Pending(c, labels', scores', None, 0);
    Viterbi.OptimalIsUnique(m, fs, labels, scores, labels', scores');
  }

  lemma PendingIsOk(c: Context, labels: seq<nat>, scores: seq<real>, matches: seq<PiiMatch>)
    requires c.Valid() && |labels| == |scores| == |c.tokens| && matches == Pending(c, labels, scores, None, 0)
    ensures SpansOk(c.text, matches)
    ensures forall k | 0 <= k < |matches| :: matches[k].confidence >= c.threshold && matches[k].jsonPath == None
  {
    InOrderFrom(labels, scores, 0);
    EmittedSpansDisjoint(c, SegmentsFrom(labels, scores, 0));
    EmittedAreConfident(c, SegmentsFrom(labels, scores, 0));
  }

  /** Exactly the runs with a confident mean are answered. */
  ghost predicate AnswersRuns(c: Context, labels: seq<nat>, scores: seq<real>, matches: seq<PiiMatch>)
    requires |labels| == |scores| == |c.tokens|
  {
    forall m :: m in matches <==> exists a: nat, b: nat :: MatchOfRun(c, labels, scores, a, b, m)
  }

  ghost predicate SegmentEmits(c: Context, segs: seq<Segment>, s: Segment, m: PiiMatch)
    requires c.Valid() && InOrder(segs, |c.tokens|)
  {
    exists k :: 0 <= k < |segs| && segs[k] == s && m in PushEntity(c, segs[k])
  }

  lemma EmitIff(c: Context, segs: seq<Segment>, m: PiiMatch)
    requires c.Valid() && InOrder(segs, |c.tokens|)
    ensures m in Emit(c, segs) <==> exists s :: SegmentEmits(c, segs, s, m)
  {
    EmitMembers(c, segs, m);
    if k :| 0 <= k < |segs| && m in PushEntity(c, segs[k]) {
      assert SegmentEmits(c, segs, segs[k], m);
    }
  }

  lemma SegmentEmitsIff(c: Context, labels: seq<nat>, scores: seq<real>, segs: seq<Segment>, s: Segment, m: PiiMatch)
    requires c.Valid() && |labels| == |scores| == |c.tokens| && InOrder(segs, |c.tokens|)
    requires segs == SegmentsFrom(labels, scores, 0)
    ensures SegmentEmits(c, segs, s, m)
            <==> IsSegment(labels, scores, s) && MatchOfRun(c, labels, scores, s.first, s.last, m)
  {
    SegmentsAreRuns(labels, scores, s);
    if IsSegment(labels, scores, s) {
      PushEntityExactly(c, labels, scores, s, m);
    }
  }

  function SegmentOfRun(labels: seq<nat>, scores: seq<real>, a: nat, b: nat): Segment
    requires a <= b < |labels| == |scores|
  {
    Segment(TypeOfKind(Kind(labels[a])), a, b, Sum(scores, a, b), b - a + 1)
  }

  lemma RunsEmit(c: Context, labels: seq<nat>, scores: seq<real>, m: PiiMatch)
    requires c.Valid() && |labels| == |scores| == |c.tokens|
    ensures m in Pending(c, labels, scores, None, 0)
            <==> exists a: nat, b: nat :: MatchOfRun(c, labels, scores, a, b, m)
  {
    var segs := SegmentsFrom(labels, scores, 0);
    InOrderFrom(labels, scores, 0);
    EmitIff(c, segs, m);
    if s :| SegmentEmits(c, segs, s, m) {
      SegmentEmitsIff(c, labels, scores, segs, s, m);
    }
    if a: nat, b: nat :| MatchOfRun(c, labels, scores, a, b, m) {
      SegmentEmitsIff(c, labels, scores, segs, SegmentOfRun(labels, scores, a, b), m);
    }
  }

  /** The scan reports an entity for exactly those runs of one type in the optimal labelling whose mean score is
      confident enough, with the bytes from the first token to the last. */
  lemma DecodedAnswersRuns(c: Context, m: Viterbi.Model, fs: Viterbi.Features, matches: seq<PiiMatch>)
    requires m.Valid() && |fs| > 0 && DecodedFrom(c, m, fs, matches)
    ensures exists labels, scores :: Viterbi.Optimal(m, fs, labels, scores) && AnswersRuns(c, labels, scores, matches)
  {
    var labels, scores :| Viterbi.Optimal(m, fs, labels, scores) && matches == Pending(c, labels, scores, None, 0);
    forall x
      ensures x in matches <==> exists a: nat, b: nat :: MatchOfRun(c, labels, scores, a, b, x)
    {
      RunsEmit(c, labels, scores, x);
    }
    assert AnswersRuns(c, labels, scores, matches);
  }

  /** The whole scan: what the segments of the optimal labelling emit. Its spans are in-bounds, ordered,
      disjoint byte slices of the text. */
  method ScanText(text: string, m: Viterbi.Model, alnum: char -> bool, extract: (seq<Token>, nat) -> seq<string>,
                  sigmoid: real -> real, threshold: real)
    returns (matches: seq<PiiMatch>)
    requires m.Valid()
    ensures var tokens := TokensFrom(alnum, text, 0);
            if tokens == [] then matches == []
            else DecodedFrom(Context(text, tokens, sigmoid, threshold), m, FeaturesOf(extract, tokens), matches)
    ensures SpansOk(text, matches)
    ensures forall k | 0 <= k < |matches| :: matches[k].confidence >= threshold && matches[k].jsonPath == None
  {
    var tokens := Tokenize(alnum, text);
    if tokens == [] {
      return [];
    }
    var features := FeaturesOf(extract, tokens);
    var labels, scores := Viterbi.Viterbi(m, features);
    TokensAreOrdered(alnum, text, 0);
    var c := Context(text, tokens, sigmoid, threshold);
    matches := DecodeEntities(c, labels, scores);
    PendingIsOk(c, labels, scores, matches);
  }
}
