/** One text scan from masking to sorted results (hybrid_scanner.rs).

    The regex, keyword, gazetteer, semantic and multilingual scanners are one uninterpreted
    function from the text they are shown to tagged matches. */
module TextScan {
  import opened Utf8
  import opened Pii
  import opened Clustering
  import opened Voting
  import opened CodeFence
  import Sorting

  /** A span is non-empty, lies between character boundaries, and carries the bytes it spans. */
  ghost predicate Placed(text: string, m: PiiMatch) {
    && m.start < m.end <= |text| && Boundary(text, m.start) && Boundary(text, m.end)
    && m.rawValue == text[m.start..m.end]
  }

  ghost predicate MatchesOk(s: string, ts: seq<TaggedMatch>) {
    && Confident(ts)
    && forall k | 0 <= k < |ts| :: Placed(s, ts[k].piiMatch)
                                   && s[ts[k].piiMatch.start] != ' ' && s[ts[k].piiMatch.end - 1] != ' '
  }

  /** What the scanners promise about a valid text: placed spans that neither start nor end with a
      space, with confidences between zero and one. */
  datatype Detector = Detector(find: string -> seq<TaggedMatch>) {
    ghost predicate Lawful() {
      forall s {:trigger find(s)} | Valid(s) :: MatchesOk(s, find(s))
    }
  }

  /** Results are placed in the text, in order and disjoint. */
  ghost predicate ResultsOk(text: string, rs: seq<PiiMatch>) {
    && (forall r | r in rs :: Placed(text, r))
    && Disjoint(rs)
  }

  /** Earlier starts first; of equal starts, the longer span first. */
  function Before(): (PiiMatch, PiiMatch) -> bool {
    (x: PiiMatch, y: PiiMatch) => x.start < y.start || (x.start == y.start && x.end >= y.end)
  }

  function Apart(): (PiiMatch, PiiMatch) -> bool {
    (x: PiiMatch, y: PiiMatch) => !Overlap(x, y)
  }

  /** What the scanners are shown: the text, with spaces for code if fences are respected. */
  ghost function EffectiveText(text: string, respectFences: bool): (shown: string)
    ensures |shown| == |text|
  {
    seq(|text|, k requires 0 <= k < |text| =>
          if respectFences && InCode(text, 0, k) && text[k] != '\n' then ' ' else text[k])
  }

  lemma EffectiveIsMasked(text: string)
    ensures EffectiveText(text, true) == Masked(text, Ranges(text, 0)) && EffectiveText(text, false) == text
  {
    forall k: nat | k < |text|
      ensures EffectiveText(text, true)[k] == Masked(text, Ranges(text, 0))[k]
    {
      ExactlyCodeIsMasked(text, k);
    }
  }

  /** Every cluster of the scanners' matches gets its verdict in the results. */
  ghost predicate AllVerdicts(ts: seq<TaggedMatch>, bonus: real, minConfidence: real, results: seq<PiiMatch>) {
    exists cs :: AreComponents(ts, cs)
                 && forall a | 0 <= a < |cs| :: Verdict(ts, cs[a], bonus, minConfidence, results)
  }

  ghost predicate AnsweredBy(ts: seq<TaggedMatch>, c: seq<nat>, r: PiiMatch, results: seq<PiiMatch>) {
    r in results && From(ts, c, r) && forall q | q in results && From(ts, c, q) :: q == r
  }

  /** The cluster of match k yields exactly one result, at least as confident as the match. */
  ghost predicate Answered(ts: seq<TaggedMatch>, k: nat, results: seq<PiiMatch>)
    requires k < |ts|
  {
    exists c, r :: IsComponent(ts, c) && k in c && AnsweredBy(ts, c, r, results)
                   && r.confidence >= ts[k].piiMatch.confidence
  }

  /** Verdicts with a bonus that is not negative answer every match that reaches the threshold. */
  lemma ConfidentAreAnswered(ts: seq<TaggedMatch>, bonus: real, minConfidence: real, results: seq<PiiMatch>, k: nat)
    requires Confident(ts) && bonus >= 0.0 && AllVerdicts(ts, bonus, minConfidence, results)
    requires k < |ts| && ts[k].piiMatch.confidence >= minConfidence
    ensures Answered(ts, k, results)
  {
    var cs :| AreComponents(ts, cs)
              && forall a | 0 <= a < |cs| :: Verdict(ts, cs[a], bonus, minConfidence, results);
    assert InSome(cs, k);
    var a :| 0 <= a < |cs| && k in cs[a];
    assert IsComponent(ts, cs[a]) && Verdict(ts, cs[a], bonus, minConfidence, results);
    var s :| TopScore(ts, cs[a], bonus, s) && Outcome(ts, cs[a], bonus, s, minConfidence, results);
    TopScoreBoundsMembers(ts, cs[a], bonus, s, k);
    var r :| OnlyResult(ts, cs[a], bonus, s, results, r);
    assert AnsweredBy(ts, cs[a], r, results);
  }

  /** A result with its value taken from the original text. */
  function Restored(text: string, m: PiiMatch): PiiMatch {
    if m.start < |text| && m.start <= m.end <= |text| then m.(rawValue := text[m.start..m.end]) else m
  }

  ghost predicate RestoredFrom(text: string, before: seq<PiiMatch>, after: seq<PiiMatch>) {
    |after| == |before| && forall k | 0 <= k < |before| :: after[k] == Restored(text, before[k])
  }

  lemma SameOrigin(ts: seq<TaggedMatch>, c: seq<nat>, text: string, p: PiiMatch)
    ensures From(ts, c, p) <==> From(ts, c, Restored(text, p))
  {
    var q := Restored(text, p);
    if From(ts, c, p) {
      var k :| k in c && SameSpan(ts, k, p);
      assert SameSpan(ts, k, q);
    }
    if From(ts, c, q) {
      var k :| k in c && SameSpan(ts, k, q);
      assert SameSpan(ts, k, p);
    }
  }

  lemma SameElection(ts: seq<TaggedMatch>, c: seq<nat>, bonus: real, text: string, p: PiiMatch)
    requires Elected(ts, c, bonus, p)
    ensures Elected(ts, c, bonus, Restored(text, p))
  {
    var k :| Elects(ts, c, bonus, k, p);
    assert Elects(ts, c, bonus, k, Restored(text, p));
  }

  lemma RestoredKeepsVerdict(ts: seq<TaggedMatch>, c: seq<nat>, bonus: real, minConfidence: real,
                             text: string, before: seq<PiiMatch>, after: seq<PiiMatch>)
    requires RestoredFrom(text, before, after) && Verdict(ts, c, bonus, minConfidence, before)
    ensures Verdict(ts, c, bonus, minConfidence, after)
  {
    var s :| TopScore(ts, c, bonus, s) && Outcome(ts, c, bonus, s, minConfidence, before);
    forall q | q in after
      ensures exists p :: p in before && q == Restored(text, p) && (From(ts, c, p) <==> From(ts, c, q))
    {
      var k :| 0 <= k < |after| && after[k] == q;
      SameOrigin(ts, c, text, before[k]);
      assert before[k] in before;
    }
    if s >= minConfidence {
      var r :| OnlyResult(ts, c, bonus, s, before, r);
      SameOrigin(ts, c, text, r);
      SameElection(ts, c, bonus, text, r);
      var k :| 0 <= k < |before| && before[k] == r;
      assert after[k] == Restored(text, r) && after[k] in after;
      assert OnlyResult(ts, c, bonus, s, after, after[k]);
    }
    assert Outcome(ts, c, bonus, s, minConfidence, after);
  }

  lemma SameMembersKeepVerdict(ts: seq<TaggedMatch>, c: seq<nat>, bonus: real, minConfidence: real,
                               before: seq<PiiMatch>, after: seq<PiiMatch>)
    requires Verdict(ts, c, bonus, minConfidence, before) && forall r :: r in before <==> r in after
    ensures Verdict(ts, c, bonus, minConfidence, after)
  {
    var s :| TopScore(ts, c, bonus, s) && Outcome(ts, c, bonus, s, minConfidence, before);
    if s >= minConfidence {
      var r :| OnlyResult(ts, c, bonus, s, before, r);
      assert OnlyResult(ts, c, bonus, s, after, r);
    }
    assert Outcome(ts, c, bonus, s, minConfidence, after);
  }

  /** Sorting spans that do not overlap puts them one after the other. */
  lemma SortedIsDisjoint(rs: seq<PiiMatch>)
    requires PairwiseApart(rs) && NonEmpty(rs)
    ensures Disjoint(Sorting.Sort(Before(), rs))
    ensures forall r :: r in Sorting.Sort(Before(), rs) <==> r in rs
  {
    var s := Sorting.Sort(Before(), rs);
    Sorting.SortSorts(Before(), rs);
    Sorting.SortMembers(Before(), rs);
    assert Sorting.Pairwise(Apart(), rs);
    Sorting.SortKeepsPairwise(Before(), Apart(), rs);
    forall a, b | 0 <= a < b < |s|
      ensures s[a].end <= s[b].start
    {
      assert Before()(s[a], s[b]) && Apart()(s[a], s[b]);
      assert s[a] in s && s[b] in s;
    }
  }

  method RestoreValues(text: string, found: seq<PiiMatch>) returns (results: seq<PiiMatch>)
    ensures RestoredFrom(text, found, results)
  {
    results := found;
    for i := 0 to |results|
      invariant |results| == |found|
      invariant forall k | 0 <= k < |found| :: results[k] == if k < i then Restored(text, found[k]) else found[k]
    {
      results := results[i := Restored(text, results[i])];
    }
  }

  /** The two texts agree on length, and spans placed in the scanned one are placed in the original. */
  lemma PlacedInOriginal(text: string, respectFences: bool, m: PiiMatch)
    requires Valid(text)
    requires var shown := EffectiveText(text, respectFences);
             Placed(shown, m) && shown[m.start] != ' ' && shown[m.end - 1] != ' '
    ensures Placed(text, Restored(text, m))
  {
    EffectiveIsMasked(text);
    if respectFences {
      SpanSurvivesMasking(text, m.start, m.end);
    }
  }

  lemma EffectiveTextIsValid(text: string, respectFences: bool)
    requires Valid(text)
    ensures Valid(EffectiveText(text, respectFences))
  {
    EffectiveIsMasked(text);
    if respectFences {
      MaskingIsSafe(text);
    }
  }

  lemma RestoreKeepsApart(text: string, found: seq<PiiMatch>, restored: seq<PiiMatch>, minConfidence: real)
    requires RestoredFrom(text, found, restored) && PairwiseApart(found) && NonEmpty(found)
    requires forall r | r in found :: r.confidence >= minConfidence
    ensures PairwiseApart(restored) && NonEmpty(restored)
    ensures forall r | r in restored :: r.confidence >= minConfidence
  {
    assert forall i | 0 <= i < |found| :: found[i] in found;
  }

  lemma RestoredApart(ts: seq<TaggedMatch>, cs: seq<seq<nat>>, text: string, respectFences: bool, bonus: real,
                      minConfidence: real, found: seq<PiiMatch>, origin: seq<nat>, restored: seq<PiiMatch>)
    requires AreComponents(ts, cs) && NonEmptySpans(ts, |text|)
    requires Winners(ts, cs, bonus, minConfidence, found, origin, |cs|)
    requires forall r | r in found :: r.confidence >= minConfidence
    requires if respectFences then RestoredFrom(text, found, restored) else restored == found
    ensures PairwiseApart(restored) && NonEmpty(restored)
    ensures forall r | r in restored :: r.confidence >= minConfidence
  {
    WinnersApart(ts, cs, bonus, minConfidence, found, origin, |text|);
    if respectFences {
      RestoreKeepsApart(text, found, restored, minConfidence);
    }
  }

  lemma VerdictSurvives(ts: seq<TaggedMatch>, cs: seq<seq<nat>>, text: string, respectFences: bool, bonus: real,
                        minConfidence: real, found: seq<PiiMatch>, origin: seq<nat>, restored: seq<PiiMatch>,
                        results: seq<PiiMatch>, a: nat)
    requires AreComponents(ts, cs) && NonEmptySpans(ts, |text|) && a < |cs|
    requires Winners(ts, cs, bonus, minConfidence, found, origin, |cs|)
    requires if respectFences then RestoredFrom(text, found, restored) else restored == found
    requires forall r :: r in results <==> r in restored
    ensures Verdict(ts, cs[a], bonus, minConfidence, results)
  {
    WinnersAreVerdicts(ts, cs, bonus, minConfidence, found, origin, |text|, a);
    if respectFences {
      RestoredKeepsVerdict(ts, cs[a], bonus, minConfidence, text, found, restored);
    }
    SameMembersKeepVerdict(ts, cs[a], bonus, minConfidence, restored, results);
  }

  lemma MatchIsPlaced(shown: string, ts: seq<TaggedMatch>, r: PiiMatch)
    requires MatchesOk(shown, ts) && IsMatch(ts, r)
    ensures Placed(shown, r) && shown[r.start] != ' ' && shown[r.end - 1] != ' '
  {
    var k :| 0 <= k < |ts| && r == ts[k].piiMatch.(confidence := r.confidence);
    assert Placed(shown, ts[k].piiMatch);
  }

  lemma VotedIsPlaced(ts: seq<TaggedMatch>, text: string, respectFences: bool, r: PiiMatch)
    requires Valid(text) && MatchesOk(EffectiveText(text, respectFences), ts) && IsMatch(ts, r)
    ensures Placed(text, if respectFences then Restored(text, r) else r)
  {
    MatchIsPlaced(EffectiveText(text, respectFences), ts, r);
    PlacedInOriginal(text, respectFences, r);
  }

  lemma VotedArePlaced(ts: seq<TaggedMatch>, text: string, respectFences: bool,
                       found: seq<PiiMatch>, restored: seq<PiiMatch>)
    requires Valid(text) && MatchesOk(EffectiveText(text, respectFences), ts)
    requires if respectFences then RestoredFrom(text, found, restored) else restored == found
    requires forall r | r in found :: IsMatch(ts, r)
    ensures forall r | r in restored :: Placed(text, r)
  {
    forall i | 0 <= i < |restored|
      ensures Placed(text, restored[i])
    {
      assert found[i] in found;
      VotedIsPlaced(ts, text, respectFences, found[i]);
    }
  }

  /** Phases two and three: vote, restore values from the original text, sort. */
  method VoteAndSort(ts: seq<TaggedMatch>, cs: seq<seq<nat>>, text: string, respectFences: bool,
                     bonus: real, minConfidence: real)
    returns (results: seq<PiiMatch>)
    requires Valid(text) && AreComponents(ts, cs) && MatchesOk(EffectiveText(text, respectFences), ts)
    ensures ResultsOk(text, results)
    ensures AllVerdicts(ts, bonus, minConfidence, results)
    ensures forall r | r in results :: r.confidence >= minConfidence
  {
    EffectiveTextIsValid(text, respectFences);
    var found, origin := VoteAll(ts, cs, bonus, minConfidence);
    var restored := found;
    if respectFences {
      restored := RestoreValues(text, found);
    }
    VotedArePlaced(ts, text, respectFences, found, restored);
    RestoredApart(ts, cs, text, respectFences, bonus, minConfidence, found, origin, restored);
    SortedIsDisjoint(restored);
    results := Sorting.Sort(Before(), restored);
    forall a | 0 <= a < |cs|
      ensures Verdict(ts, cs[a], bonus, minConfidence, results)
    {
      VerdictSurvives(ts, cs, text, respectFences, bonus, minConfidence, found, origin, restored, results, a);
    }
  }

  method ScanText(d: Detector, text: string, respectFences: bool, bonus: real, minConfidence: real)
    returns (results: seq<PiiMatch>)
    requires d.Lawful() && Valid(text)
    ensures ResultsOk(text, results)
    ensures AllVerdicts(d.find(EffectiveText(text, respectFences)), bonus, minConfidence, results)
    ensures forall r | r in results :: r.confidence >= minConfidence
    ensures var ts := d.find(EffectiveText(text, respectFences));
            bonus >= 0.0 ==>
              forall k | 0 <= k < |ts| && ts[k].piiMatch.confidence >= minConfidence :: Answered(ts, k, results)
  {
    var shown := text;
    if respectFences {
      shown := MaskCodeFences(text);
    }
    EffectiveIsMasked(text);
    EffectiveTextIsValid(text, respectFences);
    var ts := d.find(shown);
    assert MatchesOk(shown, ts);
    var clusters := ClusterOverlapping(ts);
    results := VoteAndSort(ts, clusters, text, respectFences, bonus, minConfidence);
    forall k | 0 <= k < |ts| && ts[k].piiMatch.confidence >= minConfidence && bonus >= 0.0
      ensures Answered(ts, k, results)
    {
      ConfidentAreAnswered(ts, bonus, minConfidence, results, k);
    }
  }
}
