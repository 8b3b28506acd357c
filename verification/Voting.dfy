/** Confidence voting within clusters and the final ordering of a text scan (hybrid_scanner.rs). */
module Voting {
  import opened Text
  import opened Pii
  import opened Clustering

  // ---- Scores of a cluster ----

  ghost predicate HasType(ts: seq<TaggedMatch>, k: nat, t: PiiType) {
    k < |ts| && ts[k].piiMatch.piiType == t
  }

  ghost function SourcesOf(ts: seq<TaggedMatch>, c: seq<nat>, t: PiiType): set<ScannerSource> {
    set k | k in c && HasType(ts, k, t) :: ts[k].source
  }

  /** x is the greatest raw confidence of a match of type t in c. */
  ghost predicate Raw(ts: seq<TaggedMatch>, c: seq<nat>, t: PiiType, x: real) {
    && (exists k :: k in c && HasType(ts, k, t) && ts[k].piiMatch.confidence == x)
    && (forall k | k in c && HasType(ts, k, t) :: ts[k].piiMatch.confidence <= x)
  }

  /** Two or more independent sources earn the agreement bonus, capped at one. */
  function Adjust(sources: set<ScannerSource>, x: real, bonus: real): real {
    if |sources| >= 2 then (if x + bonus < 1.0 then x + bonus else 1.0) else x
  }

  /** Two matches of the type come from different sources. */
  ghost predicate Agreed(ts: seq<TaggedMatch>, c: seq<nat>, t: PiiType) {
    exists j, k :: j in c && k in c && HasType(ts, j, t) && HasType(ts, k, t) && ts[j].source != ts[k].source
  }

  /** s is the score of the type: its greatest confidence, and the bonus if sources agree, up to one. */
  ghost predicate Scores(ts: seq<TaggedMatch>, c: seq<nat>, bonus: real, t: PiiType, s: real) {
    exists x ::
      && Raw(ts, c, t, x)
      && (!Agreed(ts, c, t) ==> s == x)
      && (Agreed(ts, c, t) ==> if x + bonus <= 1.0 then s == x + bonus else s == 1.0)
  }

  lemma {:induction false} TwoOfSet(sources: set<ScannerSource>)
    ensures |sources| >= 2 <==> exists a, b :: a in sources && b in sources && a != b
  {
    if a :| a in sources {
      var rest := sources - {a};
      assert |sources| == |rest| + 1;
      if b :| b in rest {
        assert |rest| >= 1;
      } else {
        assert rest == {};
      }
    }
  }

  ghost predicate HasSource(ts: seq<TaggedMatch>, c: seq<nat>, t: PiiType, k: nat, source: ScannerSource) {
    k in c && HasType(ts, k, t) && ts[k].source == source
  }

  lemma SourceIff(ts: seq<TaggedMatch>, c: seq<nat>, t: PiiType, source: ScannerSource)
    ensures source in SourcesOf(ts, c, t) <==> exists k :: HasSource(ts, c, t, k, source)
  {
    if source in SourcesOf(ts, c, t) {
      var k :| k in c && HasType(ts, k, t) && ts[k].source == source;
      assert HasSource(ts, c, t, k, source);
    }
  }

  lemma TwoSourcesIffAgreed(ts: seq<TaggedMatch>, c: seq<nat>, t: PiiType)
    ensures |SourcesOf(ts, c, t)| >= 2 <==> Agreed(ts, c, t)
  {
    var sources := SourcesOf(ts, c, t);
    TwoOfSet(sources);
    if a, b :| a in sources && b in sources && a != b {
      SourceIff(ts, c, t, a);
      SourceIff(ts, c, t, b);
    }
    if j, k :| j in c && k in c && HasType(ts, j, t) && HasType(ts, k, t) && ts[j].source != ts[k].source {
      assert HasSource(ts, c, t, j, ts[j].source) && HasSource(ts, c, t, k, ts[k].source);
      SourceIff(ts, c, t, ts[j].source);
      SourceIff(ts, c, t, ts[k].source);
    }
  }

  /** The score as the loop computes it. */
  lemma ScoresIffAdjusted(ts: seq<TaggedMatch>, c: seq<nat>, bonus: real, t: PiiType, s: real)
    ensures Scores(ts, c, bonus, t, s) <==> exists x :: Raw(ts, c, t, x) && s == Adjust(SourcesOf(ts, c, t), x, bonus)
  {
    TwoSourcesIffAgreed(ts, c, t);
  }

  /** s is the greatest adjusted score over the types in c. */
  ghost predicate TopScore(ts: seq<TaggedMatch>, c: seq<nat>, bonus: real, s: real) {
    && (exists t :: Scores(ts, c, bonus, t, s))
    && (forall t, r | Scores(ts, c, bonus, t, r) :: r <= s)
  }

  ghost predicate Indices(ts: seq<TaggedMatch>, c: seq<nat>) {
    forall k | k in c :: k < |ts|
  }

  // Confidences are between zero and one.
  ghost predicate Confident(ts: seq<TaggedMatch>) {
    forall k | 0 <= k < |ts| :: 0.0 <= ts[k].piiMatch.confidence <= 1.0
  }

  /** Among the matches of one type some has the greatest confidence. */
  lemma {:induction false} RawExists(ts: seq<TaggedMatch>, c: seq<nat>, t: PiiType, k: nat) returns (x: real)
    requires k in c && HasType(ts, k, t)
    ensures Raw(ts, c, t, x)
    decreases |c|
  {
    var front, last := c[..|c| - 1], c[|c| - 1];
    assert c == front + [last];
    if j :| j in front && HasType(ts, j, t) {
      x := RawExists(ts, front, t, j);
      if HasType(ts, last, t) && ts[last].piiMatch.confidence > x {
        x := ts[last].piiMatch.confidence;
      }
    } else {
      assert last == k;
      x := ts[k].piiMatch.confidence;
    }
  }

  /** A bonus that is not negative never takes the top score below the confidence of a member. */
  lemma TopScoreBoundsMembers(ts: seq<TaggedMatch>, c: seq<nat>, bonus: real, s: real, k: nat)
    requires Confident(ts) && Indices(ts, c) && bonus >= 0.0 && TopScore(ts, c, bonus, s) && k in c
    ensures s >= ts[k].piiMatch.confidence
  {
    var t := ts[k].piiMatch.piiType;
    var x := RawExists(ts, c, t, k);
    ScoresIffAdjusted(ts, c, bonus, t, Adjust(SourcesOf(ts, c, t), x, bonus));
  }

  // ---- Grouping a cluster by type ----

  datatype TypeGroup = TypeGroup(best: nat, confidence: real, sources: set<ScannerSource>)

  ghost predicate GroupOk(ts: seq<TaggedMatch>, c: seq<nat>, t: PiiType, g: TypeGroup) {
    && g.best in c && HasType(ts, g.best, t) && ts[g.best].piiMatch.confidence == g.confidence
    && (forall k | k in c && HasType(ts, k, t) :: ts[k].piiMatch.confidence <= g.confidence)
    && (forall k | k in c && HasType(ts, k, t) && k < g.best :: ts[k].piiMatch.confidence < g.confidence)
    && g.sources == SourcesOf(ts, c, t)
  }

  ghost predicate GroupsOk(ts: seq<TaggedMatch>, c: seq<nat>, groups: map<PiiType, TypeGroup>) {
    && (forall t | t in groups :: GroupOk(ts, c, t, groups[t]))
    && (forall k | k in c && k < |ts| :: ts[k].piiMatch.piiType in groups)
  }

  /** The group of a match's type after taking the match in. */
  function Voted(groups: map<PiiType, TypeGroup>, k: nat, m: TaggedMatch): TypeGroup {
    var t := m.piiMatch.piiType;
    var entry := if t in groups then groups[t] else TypeGroup(k, 0.0, {});
    var sources := entry.sources + {m.source};
    if m.piiMatch.confidence > entry.confidence then TypeGroup(k, m.piiMatch.confidence, sources)
    else TypeGroup(entry.best, entry.confidence, sources)
  }

  lemma VoteKeepsGroups(ts: seq<TaggedMatch>, c: seq<nat>, groups: map<PiiType, TypeGroup>, k: nat)
    requires k < |ts| && Confident(ts) && GroupsOk(ts, c, groups) && forall j | j in c :: j < k
    ensures GroupsOk(ts, c + [k], groups[ts[k].piiMatch.piiType := Voted(groups, k, ts[k])])
  {
    var own := ts[k].piiMatch.piiType;
    var after := groups[own := Voted(groups, k, ts[k])];
    forall t | t in after
      ensures GroupOk(ts, c + [k], t, after[t])
    {
      if t == own {
        assert SourcesOf(ts, c + [k], t) == SourcesOf(ts, c, t) + {ts[k].source};
        if t !in groups {
          assert SourcesOf(ts, c, t) == {};
        }
      } else {
        assert SourcesOf(ts, c + [k], t) == SourcesOf(ts, c, t);
      }
    }
  }

  lemma NextVote(ts: seq<TaggedMatch>, c: seq<nat>, groups: map<PiiType, TypeGroup>, i: nat)
    requires Indices(ts, c) && Confident(ts) && Ascending(c) && i < |c| && GroupsOk(ts, c[..i], groups)
    ensures c[i] < |ts|
    ensures GroupsOk(ts, c[..i + 1], groups[ts[c[i]].piiMatch.piiType := Voted(groups, c[i], ts[c[i]])])
  {
    assert c[i] in c && forall j | j in c[..i] :: j < c[i];
    assert c[..i + 1] == c[..i] + [c[i]];
    VoteKeepsGroups(ts, c[..i], groups, c[i]);
  }

  method GroupByType(ts: seq<TaggedMatch>, c: seq<nat>) returns (groups: map<PiiType, TypeGroup>)
    requires Indices(ts, c) && Confident(ts) && Ascending(c)
    ensures GroupsOk(ts, c, groups)
  {
    groups := map[];
    for i := 0 to |c|
      invariant GroupsOk(ts, c[..i], groups)
    {
      NextVote(ts, c, groups, i);
      groups := groups[ts[c[i]].piiMatch.piiType := Voted(groups, c[i], ts[c[i]])];
    }
    assert c[..|c|] == c;
  }

  /** The group with the greatest adjusted score; ties fall to whichever the hash map yields first. */
  method PickType(groups: map<PiiType, TypeGroup>, bonus: real) returns (winner: PiiType)
    requires |groups| > 0
    ensures winner in groups
    ensures forall t | t in groups ::
              Adjust(groups[t].sources, groups[t].confidence, bonus)
              <= Adjust(groups[winner].sources, groups[winner].confidence, bonus)
  {
    var best: Option<(real, PiiType)> := None;
    var remaining := groups.Keys;
    assert |groups| == |groups.Keys|;
    while remaining != {}
      invariant remaining <= groups.Keys
      invariant best.None? ==> remaining == groups.Keys
      invariant best.Some? ==>
                  && best.value.1 in groups
                  && best.value.0 == Adjust(groups[best.value.1].sources, groups[best.value.1].confidence, bonus)
      invariant forall t | t in groups && t !in remaining ::
                  best.Some? && Adjust(groups[t].sources, groups[t].confidence, bonus) <= best.value.0
      decreases remaining
    {
      var t :| t in remaining;
      var adjusted := Adjust(groups[t].sources, groups[t].confidence, bonus);
      if best.None? || adjusted > best.value.0 {
        best := Some((adjusted, t));
      }
      remaining := remaining - {t};
    }
    winner := best.value.1;
  }

  /** r is some match, up to its confidence. */
  ghost predicate IsMatch(ts: seq<TaggedMatch>, r: PiiMatch) {
    exists k :: 0 <= k < |ts| && r == ts[k].piiMatch.(confidence := r.confidence)
  }

  lemma SingletonScore(ts: seq<TaggedMatch>, k: nat, bonus: real)
    requires k < |ts|
    ensures TopScore(ts, [k], bonus, ts[k].piiMatch.confidence)
    ensures Scores(ts, [k], bonus, ts[k].piiMatch.piiType, ts[k].piiMatch.confidence)
    ensures Raw(ts, [k], ts[k].piiMatch.piiType, ts[k].piiMatch.confidence)
  {
    var t, x := ts[k].piiMatch.piiType, ts[k].piiMatch.confidence;
    assert k in [k] && HasType(ts, k, t);
    assert SourcesOf(ts, [k], t) == {ts[k].source};
    assert Raw(ts, [k], t, x);
    assert Scores(ts, [k], bonus, t, x);
  }

  lemma GroupsGiveTopScore(ts: seq<TaggedMatch>, c: seq<nat>, bonus: real, groups: map<PiiType, TypeGroup>, w: PiiType)
    requires Indices(ts, c) && GroupsOk(ts, c, groups) && w in groups
    requires forall t | t in groups ::
               Adjust(groups[t].sources, groups[t].confidence, bonus)
               <= Adjust(groups[w].sources, groups[w].confidence, bonus)
    ensures TopScore(ts, c, bonus, Adjust(groups[w].sources, groups[w].confidence, bonus))
    ensures Scores(ts, c, bonus, w, Adjust(groups[w].sources, groups[w].confidence, bonus))
    ensures Raw(ts, c, w, groups[w].confidence)
  {
    var s := Adjust(groups[w].sources, groups[w].confidence, bonus);
    assert GroupOk(ts, c, w, groups[w]);
    assert Raw(ts, c, w, groups[w].confidence);
    ScoresIffAdjusted(ts, c, bonus, w, s);
    forall t, r | Scores(ts, c, bonus, t, r)
      ensures r <= s
    {
      ScoresIffAdjusted(ts, c, bonus, t, r);
      var x :| Raw(ts, c, t, x) && r == Adjust(SourcesOf(ts, c, t), x, bonus);
      var k :| k in c && HasType(ts, k, t) && ts[k].piiMatch.confidence == x;
      assert t in groups && GroupOk(ts, c, t, groups[t]);
    }
  }

  ghost predicate SameSpan(ts: seq<TaggedMatch>, k: nat, r: PiiMatch) {
    && k < |ts| && ts[k].piiMatch.start == r.start && ts[k].piiMatch.end == r.end
    && ts[k].piiMatch.piiType == r.piiType
  }

  /** r is match k with the score of its type, of which k is the first match with the greatest confidence. */
  ghost predicate Elects(ts: seq<TaggedMatch>, c: seq<nat>, bonus: real, k: nat, r: PiiMatch) {
    && k in c && SameSpan(ts, k, r)
    && Raw(ts, c, r.piiType, ts[k].piiMatch.confidence)
    && (forall j | j in c && HasType(ts, j, r.piiType) && j < k ::
          ts[j].piiMatch.confidence < ts[k].piiMatch.confidence)
    && Scores(ts, c, bonus, r.piiType, r.confidence)
  }

  ghost predicate Elected(ts: seq<TaggedMatch>, c: seq<nat>, bonus: real, r: PiiMatch) {
    exists k :: Elects(ts, c, bonus, k, r)
  }

  /** The verdict on a cluster: the match of it that is elected, with the cluster's top score as its confidence. */
  ghost predicate Resolves(ts: seq<TaggedMatch>, c: seq<nat>, bonus: real, winner: PiiMatch) {
    && TopScore(ts, c, bonus, winner.confidence) && Elected(ts, c, bonus, winner)
    && exists k :: k in c && k < |ts| && winner == ts[k].piiMatch.(confidence := winner.confidence)
  }

  method ResolveCluster(ts: seq<TaggedMatch>, c: seq<nat>, bonus: real) returns (winner: PiiMatch)
    requires c != [] && Indices(ts, c) && Confident(ts) && Ascending(c)
    ensures Resolves(ts, c, bonus, winner)
  {
    assert c[0] in c;
    if |c| == 1 {
      SingletonScore(ts, c[0], bonus);
      assert c == [c[0]] && Elects(ts, c, bonus, c[0], ts[c[0]].piiMatch);
      return ts[c[0]].piiMatch;
    }
    var groups := GroupByType(ts, c);
    assert ts[c[0]].piiMatch.piiType in groups;
    var t := PickType(groups, bonus);
    var g := groups[t];
    assert GroupOk(ts, c, t, g);
    winner := ts[g.best].piiMatch.(confidence := Adjust(g.sources, ts[g.best].piiMatch.confidence, bonus));
    GroupsGiveTopScore(ts, c, bonus, groups, t);
    assert Elects(ts, c, bonus, g.best, winner);
  }

  // ---- Voting over all clusters ----

  /** r stands for cluster c: it has the span and type of one of its members. */
  ghost predicate From(ts: seq<TaggedMatch>, c: seq<nat>, r: PiiMatch) {
    exists k :: k in c && SameSpan(ts, k, r)
  }

  ghost predicate NonEmptySpans(ts: seq<TaggedMatch>, n: nat) {
    forall k | 0 <= k < |ts| :: ts[k].piiMatch.start < ts[k].piiMatch.end <= n
  }

  /** r is the only result that stands for the cluster, with its score and the match that is elected. */
  ghost predicate OnlyResult(ts: seq<TaggedMatch>, c: seq<nat>, bonus: real, s: real, results: seq<PiiMatch>,
                             r: PiiMatch) {
    && r in results && From(ts, c, r) && r.confidence == s && Elected(ts, c, bonus, r)
    && forall q | q in results && From(ts, c, q) :: q == r
  }

  ghost predicate Outcome(ts: seq<TaggedMatch>, c: seq<nat>, bonus: real, s: real, minConfidence: real,
                          results: seq<PiiMatch>) {
    if s >= minConfidence then exists r :: OnlyResult(ts, c, bonus, s, results, r)
    else forall q | q in results :: !From(ts, c, q)
  }

  /** What becomes of one cluster: exactly one result with the top score, or none below the threshold. */
  ghost predicate Verdict(ts: seq<TaggedMatch>, c: seq<nat>, bonus: real, minConfidence: real, results: seq<PiiMatch>) {
    exists s :: TopScore(ts, c, bonus, s) && Outcome(ts, c, bonus, s, minConfidence, results)
  }

  /** Spans in order, none overlapping another. */
  ghost predicate Disjoint(rs: seq<PiiMatch>) {
    forall a, b | 0 <= a < b < |rs| :: rs[a].end <= rs[b].start
  }

  ghost predicate Listed(results: seq<PiiMatch>, origin: seq<nat>, a: nat, s: real, minConfidence: real)
    requires |origin| == |results|
  {
    if s >= minConfidence then exists i :: 0 <= i < |origin| && origin[i] == a && results[i].confidence == s
    else a !in origin
  }

  /** Cluster a has a score, and the result listed for it has that score if it reached the threshold. */
  ghost predicate Settled(top: (nat, real) -> bool, minConfidence: real, results: seq<PiiMatch>, origin: seq<nat>,
                          a: nat)
    requires |origin| == |results|
  {
    exists s :: top(a, s) && Listed(results, origin, a, s, minConfidence)
  }

  /** One result per cluster that reached the threshold, in the order of the clusters, for whatever makes a result
      stand for a cluster and gives a cluster its score. */
  ghost predicate Won(stands: (nat, PiiMatch) -> bool, top: (nat, real) -> bool, minConfidence: real,
                      results: seq<PiiMatch>, origin: seq<nat>, n: nat)
  {
    && |origin| == |results|
    && (forall i | 0 <= i < |results| :: origin[i] < n && stands(origin[i], results[i]))
    && (forall i, j | 0 <= i < j < |origin| :: origin[i] < origin[j])
    && (forall a | 0 <= a < n :: Settled(top, minConfidence, results, origin, a))
  }

  ghost function Standing(ts: seq<TaggedMatch>, cs: seq<seq<nat>>, bonus: real): (nat, PiiMatch) -> bool {
    (a: nat, r: PiiMatch) => a < |cs| && From(ts, cs[a], r) && Elected(ts, cs[a], bonus, r)
  }

  ghost function Topping(ts: seq<TaggedMatch>, cs: seq<seq<nat>>, bonus: real): (nat, real) -> bool {
    (a: nat, s: real) => a < |cs| && TopScore(ts, cs[a], bonus, s)
  }

  ghost predicate Winners(ts: seq<TaggedMatch>, cs: seq<seq<nat>>, bonus: real, minConfidence: real,
                          results: seq<PiiMatch>, origin: seq<nat>, n: nat)
  {
    Won(Standing(ts, cs, bonus), Topping(ts, cs, bonus), minConfidence, results, origin, n)
  }

  lemma ListedStays(results: seq<PiiMatch>, origin: seq<nat>, r: PiiMatch, n: nat, a: nat, s: real, minConfidence: real)
    requires |origin| == |results| && a < n && Listed(results, origin, a, s, minConfidence)
    ensures Listed(results + [r], origin + [n], a, s, minConfidence)
  {
    if s >= minConfidence {
      var i :| 0 <= i < |origin| && origin[i] == a && results[i].confidence == s;
      assert (origin + [n])[i] == a && (results + [r])[i].confidence == s;
    }
  }

  lemma SettledGrows(top: (nat, real) -> bool, minConfidence: real, results: seq<PiiMatch>, origin: seq<nat>,
                     r: PiiMatch, n: nat, a: nat)
    requires |origin| == |results| && a < n && Settled(top, minConfidence, results, origin, a)
    ensures Settled(top, minConfidence, results + [r], origin + [n], a)
  {
    var s :| top(a, s) && Listed(results, origin, a, s, minConfidence);
    ListedStays(results, origin, r, n, a, s, minConfidence);
  }

  lemma LastIsSettled(top: (nat, real) -> bool, minConfidence: real, results: seq<PiiMatch>, origin: seq<nat>,
                      r: PiiMatch, n: nat)
    requires |origin| == |results| && top(n, r.confidence) && r.confidence >= minConfidence
    ensures Settled(top, minConfidence, results + [r], origin + [n], n)
  {
    assert (origin + [n])[|origin|] == n && (results + [r])[|origin|].confidence == r.confidence;
    assert Listed(results + [r], origin + [n], n, r.confidence, minConfidence);
  }

  /** One more cluster whose result reaches the threshold. */
  lemma WonMore(stands: (nat, PiiMatch) -> bool, top: (nat, real) -> bool, minConfidence: real,
                results: seq<PiiMatch>, origin: seq<nat>, n: nat, r: PiiMatch)
    requires Won(stands, top, minConfidence, results, origin, n)
    requires stands(n, r) && top(n, r.confidence) && r.confidence >= minConfidence
    ensures Won(stands, top, minConfidence, results + [r], origin + [n], n + 1)
  {
    forall a | 0 <= a < n + 1
      ensures Settled(top, minConfidence, results + [r], origin + [n], a)
    {
      if a < n {
        SettledGrows(top, minConfidence, results, origin, r, n, a);
      } else {
        LastIsSettled(top, minConfidence, results, origin, r, n);
      }
    }
  }

  /** One more cluster below the threshold. */
  lemma WonNoMore(stands: (nat, PiiMatch) -> bool, top: (nat, real) -> bool, minConfidence: real,
                  results: seq<PiiMatch>, origin: seq<nat>, n: nat, s: real)
    requires Won(stands, top, minConfidence, results, origin, n) && top(n, s) && s < minConfidence
    ensures Won(stands, top, minConfidence, results, origin, n + 1)
  {
    assert n !in origin;
    assert Listed(results, origin, n, s, minConfidence);
    assert Settled(top, minConfidence, results, origin, n);
  }

  ghost predicate ConfidentMatches(ts: seq<TaggedMatch>, minConfidence: real, results: seq<PiiMatch>) {
    forall r | r in results :: r.confidence >= minConfidence && IsMatch(ts, r)
  }

  lemma WinnerIsMember(ts: seq<TaggedMatch>, c: seq<nat>, winner: PiiMatch)
    requires exists k :: k in c && k < |ts| && winner == ts[k].piiMatch.(confidence := winner.confidence)
    ensures From(ts, c, winner) && IsMatch(ts, winner)
  {
    var k :| k in c && k < |ts| && winner == ts[k].piiMatch.(confidence := winner.confidence);
    assert SameSpan(ts, k, winner);
  }

  /** One round of the voting loop. */
  lemma NextWinner(ts: seq<TaggedMatch>, cs: seq<seq<nat>>, bonus: real, minConfidence: real,
                   before: seq<PiiMatch>, from: seq<nat>, n: nat, winner: PiiMatch,
                   after: seq<PiiMatch>, origin: seq<nat>)
    requires n < |cs| && Winners(ts, cs, bonus, minConfidence, before, from, n)
    requires ConfidentMatches(ts, minConfidence, before)
    requires Resolves(ts, cs[n], bonus, winner)
    requires after == if winner.confidence >= minConfidence then before + [winner] else before
    requires origin == if winner.confidence >= minConfidence then from + [n] else from
    ensures Winners(ts, cs, bonus, minConfidence, after, origin, n + 1) && ConfidentMatches(ts, minConfidence, after)
  {
    var stands, top := Standing(ts, cs, bonus), Topping(ts, cs, bonus);
    WinnerIsMember(ts, cs[n], winner);
    assert stands(n, winner) && top(n, winner.confidence);
    if winner.confidence >= minConfidence {
      WonMore(stands, top, minConfidence, before, from, n, winner);
    } else {
      WonNoMore(stands, top, minConfidence, before, from, n, winner.confidence);
    }
  }

  /** One cluster: its winner joins the results if it reaches the threshold. */
  method VoteOne(ts: seq<TaggedMatch>, cs: seq<seq<nat>>, bonus: real, minConfidence: real,
                 before: seq<PiiMatch>, ghost from: seq<nat>, i: nat)
    returns (results: seq<PiiMatch>, ghost origin: seq<nat>)
    requires Confident(ts) && i < |cs| && IsComponent(ts, cs[i])
    requires Winners(ts, cs, bonus, minConfidence, before, from, i) && ConfidentMatches(ts, minConfidence, before)
    ensures Winners(ts, cs, bonus, minConfidence, results, origin, i + 1)
    ensures ConfidentMatches(ts, minConfidence, results)
  {
    results, origin := before, from;
    var winner := ResolveCluster(ts, cs[i], bonus);
    if winner.confidence >= minConfidence {
      results, origin := results + [winner], origin + [i];
    }
    NextWinner(ts, cs, bonus, minConfidence, before, from, i, winner, results, origin);
  }

  method VoteAll(ts: seq<TaggedMatch>, cs: seq<seq<nat>>, bonus: real, minConfidence: real)
    returns (results: seq<PiiMatch>, ghost origin: seq<nat>)
    requires Confident(ts) && AreComponents(ts, cs)
    ensures Winners(ts, cs, bonus, minConfidence, results, origin, |cs|)
    ensures forall r | r in results :: r.confidence >= minConfidence && IsMatch(ts, r)
  {
    results, origin := [], [];
    for i := 0 to |cs|
      invariant Winners(ts, cs, bonus, minConfidence, results, origin, i)
      invariant ConfidentMatches(ts, minConfidence, results)
    {
      results, origin := VoteOne(ts, cs, bonus, minConfidence, results, origin, i);
    }
  }

  /** Results that touch the same byte come from the same cluster. */
  lemma OverlapMeansSameCluster(ts: seq<TaggedMatch>, cs: seq<seq<nat>>, a: nat, b: nat, x: PiiMatch, y: PiiMatch)
    requires AreComponents(ts, cs) && a < |cs| && b < |cs|
    requires From(ts, cs[a], x) && From(ts, cs[b], y) && Overlap(x, y)
    ensures a == b
  {
    var j :| j in cs[a] && SameSpan(ts, j, x);
    var k :| k in cs[b] && SameSpan(ts, k, y);
    LinkedEdge(ts, j, k);
    SameClusterIffLinked(ts, cs, a, j, k);
    ClustersAreDisjoint(ts, cs, a, b, k);
  }

  ghost predicate NonEmpty(rs: seq<PiiMatch>) {
    forall r | r in rs :: r.start < r.end
  }

  /** Results are pairwise disjoint, whatever order they are in. */
  ghost predicate PairwiseApart(rs: seq<PiiMatch>) {
    forall i, j | 0 <= i < j < |rs| :: !Overlap(rs[i], rs[j])
  }

  lemma WinnersApart(ts: seq<TaggedMatch>, cs: seq<seq<nat>>, bonus: real, minConfidence: real,
                     results: seq<PiiMatch>, origin: seq<nat>, n: nat)
    requires AreComponents(ts, cs) && NonEmptySpans(ts, n)
    requires Winners(ts, cs, bonus, minConfidence, results, origin, |cs|)
    ensures PairwiseApart(results)
    ensures forall r | r in results :: r.start < r.end <= n
  {
    forall i, j | 0 <= i < j < |results|
      ensures !Overlap(results[i], results[j])
    {
      if Overlap(results[i], results[j]) {
        OverlapMeansSameCluster(ts, cs, origin[i], origin[j], results[i], results[j]);
      }
    }
    forall r | r in results
      ensures r.start < r.end <= n
    {
      var i :| 0 <= i < |results| && results[i] == r;
      var k :| k in cs[origin[i]] && SameSpan(ts, k, r);
    }
  }

  lemma OnlyOneFrom(ts: seq<TaggedMatch>, c: seq<nat>, results: seq<PiiMatch>, origin: seq<nat>, a: nat, i: nat)
    requires |origin| == |results| && i < |results| && origin[i] == a
    requires forall i, j | 0 <= i < j < |origin| :: origin[i] < origin[j]
    requires forall j | 0 <= j < |results| :: From(ts, c, results[j]) <==> origin[j] == a
    ensures forall q | q in results && From(ts, c, q) :: q == results[i]
  {
    forall q | q in results && From(ts, c, q)
      ensures q == results[i]
    {
      var j :| 0 <= j < |results| && results[j] == q;
      assert origin[j] == a;
    }
  }

  lemma ListedIsOutcome(ts: seq<TaggedMatch>, c: seq<nat>, bonus: real, minConfidence: real, results: seq<PiiMatch>,
                        origin: seq<nat>, a: nat, s: real)
    requires |origin| == |results| && Listed(results, origin, a, s, minConfidence)
    requires forall i, j | 0 <= i < j < |origin| :: origin[i] < origin[j]
    requires forall j | 0 <= j < |results| :: From(ts, c, results[j]) <==> origin[j] == a
    requires forall j | 0 <= j < |results| && origin[j] == a :: Elected(ts, c, bonus, results[j])
    ensures Outcome(ts, c, bonus, s, minConfidence, results)
  {
    forall q | q in results && From(ts, c, q)
      ensures exists j :: 0 <= j < |results| && results[j] == q && origin[j] == a
    {
      var j :| 0 <= j < |results| && results[j] == q;
    }
    if s >= minConfidence {
      var i :| 0 <= i < |origin| && origin[i] == a && results[i].confidence == s;
      OnlyOneFrom(ts, c, results, origin, a, i);
      assert OnlyResult(ts, c, bonus, s, results, results[i]);
    }
  }

  lemma OriginIsUnique(ts: seq<TaggedMatch>, cs: seq<seq<nat>>, bonus: real, minConfidence: real,
                       results: seq<PiiMatch>, origin: seq<nat>, n: nat, a: nat)
    requires AreComponents(ts, cs) && NonEmptySpans(ts, n) && a < |cs|
    requires Winners(ts, cs, bonus, minConfidence, results, origin, |cs|)
    ensures forall j | 0 <= j < |results| && From(ts, cs[a], results[j]) :: origin[j] == a
  {
    WinnersApart(ts, cs, bonus, minConfidence, results, origin, n);
    forall j | 0 <= j < |results| && From(ts, cs[a], results[j])
      ensures origin[j] == a
    {
      assert results[j] in results;
      OverlapMeansSameCluster(ts, cs, a, origin[j], results[j], results[j]);
    }
  }

  lemma WinnersAreVerdicts(ts: seq<TaggedMatch>, cs: seq<seq<nat>>, bonus: real, minConfidence: real,
                           results: seq<PiiMatch>, origin: seq<nat>, n: nat, a: nat)
    requires AreComponents(ts, cs) && NonEmptySpans(ts, n) && a < |cs|
    requires Winners(ts, cs, bonus, minConfidence, results, origin, |cs|)
    ensures Verdict(ts, cs[a], bonus, minConfidence, results)
  {
    assert Settled(Topping(ts, cs, bonus), minConfidence, results, origin, a);
    var s :| Topping(ts, cs, bonus)(a, s) && Listed(results, origin, a, s, minConfidence);
    OriginIsUnique(ts, cs, bonus, minConfidence, results, origin, n, a);
    ListedIsOutcome(ts, cs[a], bonus, minConfidence, results, origin, a, s);
  }
}
