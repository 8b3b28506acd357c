/** Viterbi decoding of a linear-chain CRF (crf_scanner.rs).

    The table-filling decoder is proved against a score defined on whole label
    sequences, so the main results quantify over all of the exponentially many
    labellings. Scores are `real`; the sentinel NEG_INFINITY is a value of its own. */
module Viterbi {

  /** The trained weights. `num_labels` is the number of transition rows. */
  datatype Model = Model(stateFeatures: map<string, seq<real>>, transitions: seq<seq<real>>) {
    function NumLabels(): nat {
      |transitions|
    }

    // What loading a model file enforces: a square, non-empty matrix.
    predicate Valid() {
      && NumLabels() > 0
      && forall i | 0 <= i < NumLabels() :: |transitions[i]| == NumLabels()
    }
  }

  datatype Score = NegInf | Finite(value: real) {
    predicate Less(that: Score) {
      match (this, that)
      case (NegInf, Finite(_)) => true
      case (Finite(x), Finite(y)) => x < y
      case (_, NegInf) => false
    }

    function Plus(x: real): Score {
      match this
      case NegInf => NegInf
      case Finite(v) => Finite(v + x)
    }
  }

  type Features = seq<seq<string>>

  // ---- Scores of labellings ----

  function Weight(m: Model, feat: string, j: nat): real {
    if feat in m.stateFeatures && j < |m.stateFeatures[feat]| then m.stateFeatures[feat][j] else 0.0
  }

  function StateScore(m: Model, feats: seq<string>, j: nat): real {
    if feats == [] then 0.0
    else StateScore(m, feats[..|feats| - 1], j) + Weight(m, feats[|feats| - 1], j)
  }

  ghost predicate Labelling(m: Model, y: seq<nat>) {
    forall t | 0 <= t < |y| :: y[t] < m.NumLabels()
  }

  /** The score the CRF gives to labelling the first |y| tokens by y. */
  ghost function PathScore(m: Model, fs: Features, y: seq<nat>): real
    requires m.Valid() && Labelling(m, y) && 0 < |y| <= |fs|
  {
    var t := |y| - 1;
    if t == 0 then StateScore(m, fs[0], y[0])
    else PathScore(m, fs, y[..t]) + m.transitions[y[t - 1]][y[t]] + StateScore(m, fs[t], y[t])
  }

  /** Every feature counts: the scores of two lists of features add up. */
  lemma {:induction false} StateScoreAdds(m: Model, a: seq<string>, b: seq<string>, j: nat)
    ensures StateScore(m, a + b, j) == StateScore(m, a, j) + StateScore(m, b, j)
    decreases |b|
  {
    if b == [] {
      assert a + b == a;
    } else {
      var front, last := b[..|b| - 1], b[|b| - 1];
      StateScoreAdds(m, a, front, j);
      assert (a + b)[..|a + b| - 1] == a + front;
    }
  }

  /** No features score nothing, and one feature scores its weight for the label, if the model has one. */
  lemma StateScoreOfOne(m: Model, feat: string, j: nat)
    ensures StateScore(m, [], j) == 0.0
    ensures feat in m.stateFeatures && j < |m.stateFeatures[feat]| ==>
              StateScore(m, [feat], j) == m.stateFeatures[feat][j]
    ensures !(feat in m.stateFeatures && j < |m.stateFeatures[feat]|) ==> StateScore(m, [feat], j) == 0.0
  {
    assert [feat][..0] == [];
  }

  function Total(f: nat -> real, n: nat): real {
    if n == 0 then 0.0 else Total(f, n - 1) + f(n - 1)
  }

  /** The score of a labelling is that of its labels, token by token, and of its transitions, pair by pair. */
  lemma {:induction false} PathScoreIsSum(m: Model, fs: Features, y: seq<nat>, own: nat -> real, step: nat -> real)
    requires m.Valid() && Labelling(m, y) && 0 < |y| <= |fs|
    requires forall t: nat | t < |y| :: own(t) == StateScore(m, fs[t], y[t])
    requires forall t: nat | t + 1 < |y| :: step(t) == m.transitions[y[t]][y[t + 1]]
    ensures PathScore(m, fs, y) == Total(own, |y|) + Total(step, |y| - 1)
    decreases |y|
  {
    var t := |y| - 1;
    if t > 0 {
      PathScoreIsSum(m, fs, y[..t], own, step);
      assert step(t - 1) == m.transitions[y[t - 1]][y[t]];
    } else {
      assert Total(own, 1) == Total(own, 0) + own(0);
    }
  }

  /** x comes before y in reverse-lexicographic order: at the last place where they differ, x is smaller. */
  ghost predicate ReverseLess(x: seq<nat>, y: seq<nat>) {
    && |x| == |y|
    && exists k :: 0 <= k < |x| && x[k] < y[k] && x[k + 1..] == y[k + 1..]
  }

  // ---- The dynamic program ----

  /** Score of the best labelling of tokens 0..t that ends in label j. */
  ghost function Best(m: Model, fs: Features, t: nat, j: nat): real
    requires m.Valid() && t < |fs| && j < m.NumLabels()
    decreases t, m.NumLabels() + 1
  {
    if t == 0 then StateScore(m, fs[0], j)
    else Through(m, fs, t, Arg(m, fs, t, j, m.NumLabels()), j) + StateScore(m, fs[t], j)
  }

  ghost function Through(m: Model, fs: Features, t: nat, i: nat, j: nat): real
    requires m.Valid() && 0 < t < |fs| && i < m.NumLabels() && j < m.NumLabels()
    decreases t, 0
  {
    Best(m, fs, t - 1, i) + m.transitions[i][j]
  }

  /** The least of the best predecessors below k. */
  ghost function Arg(m: Model, fs: Features, t: nat, j: nat, k: nat): (r: nat)
    requires m.Valid() && 0 < t < |fs| && j < m.NumLabels() && 0 < k <= m.NumLabels()
    ensures r < k
    decreases t, k
  {
    if k == 1 then 0
    else
      var r := Arg(m, fs, t, j, k - 1);
      if Through(m, fs, t, r, j) < Through(m, fs, t, k - 1, j) then k - 1 else r
  }

  lemma {:induction false} ArgIsFirstBest(m: Model, fs: Features, t: nat, j: nat, k: nat, i: nat)
    requires m.Valid() && 0 < t < |fs| && j < m.NumLabels() && i < k <= m.NumLabels()
    ensures var r := Arg(m, fs, t, j, k);
            && Through(m, fs, t, i, j) <= Through(m, fs, t, r, j)
            && (i < r ==> Through(m, fs, t, i, j) < Through(m, fs, t, r, j))
    decreases k
  {
    if k > 1 {
      ArgIsFirstBest(m, fs, t, j, k - 1, if i < k - 1 then i else 0);
    }
  }

  ghost function Back(m: Model, fs: Features, t: nat, j: nat): (r: nat)
    requires m.Valid() && 0 < t < |fs| && j < m.NumLabels()
    ensures r < m.NumLabels()
  {
    Arg(m, fs, t, j, m.NumLabels())
  }

  /** The labelling that following the backpointers from label j at token t spells out. */
  ghost function Decode(m: Model, fs: Features, t: nat, j: nat): (y: seq<nat>)
    requires m.Valid() && t < |fs| && j < m.NumLabels()
    ensures |y| == t + 1 && y[t] == j && Labelling(m, y)
  {
    if t == 0 then [j] else Decode(m, fs, t - 1, Back(m, fs, t, j)) + [j]
  }

  lemma BestExtends(m: Model, fs: Features, p: seq<nat>, t: nat, j: nat)
    requires m.Valid() && Labelling(m, p) && 0 < |p| == t < |fs| && j < m.NumLabels()
    requires p[t - 1] == Back(m, fs, t, j) && PathScore(m, fs, p) == Best(m, fs, t - 1, p[t - 1])
    ensures PathScore(m, fs, p + [j]) == Best(m, fs, t, j)
  {
    var y := p + [j];
    assert y[..t] == p && y[t] == j;
  }

  lemma {:induction false} DecodeAttainsBest(m: Model, fs: Features, t: nat, j: nat, y: seq<nat>)
    requires m.Valid() && t < |fs| && j < m.NumLabels()
    requires y == Decode(m, fs, t, j)
    ensures PathScore(m, fs, y) == Best(m, fs, t, j)
  {
    if t > 0 {
      var i := Back(m, fs, t, j);
      var p := Decode(m, fs, t - 1, i);
      assert y == p + [j];
      DecodeAttainsBest(m, fs, t - 1, i, p);
      BestExtends(m, fs, p, t, j);
    }
  }

  lemma {:induction false} BestBoundsEveryPath(m: Model, fs: Features, y: seq<nat>)
    requires m.Valid() && Labelling(m, y) && 0 < |y| <= |fs|
    ensures PathScore(m, fs, y) <= Best(m, fs, |y| - 1, y[|y| - 1])
  {
    var t := |y| - 1;
    if t > 0 {
      BestBoundsEveryPath(m, fs, y[..t]);
      ArgIsFirstBest(m, fs, t, y[t], m.NumLabels(), y[t - 1]);
      assert PathScore(m, fs, y) <= Through(m, fs, t, y[t - 1], y[t]) + StateScore(m, fs[t], y[t]);
    }
  }

  lemma ReverseLessAppend(x: seq<nat>, y: seq<nat>, z: nat)
    requires ReverseLess(x, y)
    ensures ReverseLess(x + [z], y + [z])
  {
    var k :| 0 <= k < |x| && x[k] < y[k] && x[k + 1..] == y[k + 1..];
    var xz, yz := x + [z], y + [z];
    assert xz[k + 1..] == x[k + 1..] + [z] == yz[k + 1..];
    assert xz[k] < yz[k];
  }

  lemma ReverseLessAtEnd(x: seq<nat>, y: seq<nat>)
    requires |x| == |y| > 0 && x[|x| - 1] < y[|y| - 1]
    ensures ReverseLess(x, y)
  {
    assert x[|x|..] == y[|y|..] == [];
  }

  /** Of all best labellings ending in j, backpointers give the reverse-lexicographically least. */
  lemma {:induction false} DecodeIsReverseLeast(m: Model, fs: Features, y: seq<nat>)
    requires m.Valid() && Labelling(m, y) && 0 < |y| <= |fs|
    requires PathScore(m, fs, y) == Best(m, fs, |y| - 1, y[|y| - 1])
    ensures var x := Decode(m, fs, |y| - 1, y[|y| - 1]); x == y || ReverseLess(x, y)
  {
    var t := |y| - 1;
    if t > 0 {
      var j, p := y[t], y[..t];
      var i := Back(m, fs, t, j);
      var xp := Decode(m, fs, t - 1, i);
      BestBoundsEveryPath(m, fs, p);
      ArgIsFirstBest(m, fs, t, j, m.NumLabels(), y[t - 1]);
      assert Through(m, fs, t, y[t - 1], j) == Through(m, fs, t, i, j);
      assert i <= y[t - 1];
      assert y == p + [j];
      if i == y[t - 1] {
        DecodeIsReverseLeast(m, fs, p);
      } else {
        ReverseLessAtEnd(xp, p);
      }
      if xp != p {
        ReverseLessAppend(xp, p, j);
      }
    }
  }

  // ---- The decoder ----

  method ComputeStateScores(m: Model, feats: seq<string>) returns (scores: seq<real>)
    ensures |scores| == m.NumLabels()
    ensures forall j | 0 <= j < |scores| :: scores[j] == StateScore(m, feats, j)
  {
    var acc := new real[m.NumLabels()](_ => 0.0);
    for f := 0 to |feats|
      invariant forall j | 0 <= j < acc.Length :: acc[j] == StateScore(m, feats[..f], j)
    {
      assert feats[..f + 1][..f] == feats[..f];
      if feats[f] in m.stateFeatures {
        var weights := m.stateFeatures[feats[f]];
        for j := 0 to |weights|
          invariant forall k | 0 <= k < acc.Length ::
                      acc[k] == StateScore(m, feats[..f], k) + if k < j then weights[k] else 0.0
        {
          if j < acc.Length {
            acc[j] := acc[j] + weights[j];
          }
        }
      }
    }
    assert feats[..|feats|] == feats;
    scores := acc[..];
  }

  ghost predicate RowDone(m: Model, fs: Features, t: nat, table: array2<Score>)
    requires m.Valid() && t < |fs| && table.Length0 == |fs| && table.Length1 == m.NumLabels()
    reads table
  {
    forall i: nat | i < m.NumLabels() :: table[t, i] == Finite(Best(m, fs, t, i))
  }

  ghost predicate BackDone(m: Model, fs: Features, t: nat, back: array2<nat>)
    requires m.Valid() && 0 < t < |fs| && back.Length0 == |fs| && back.Length1 == m.NumLabels()
    reads back
  {
    forall i: nat | i < m.NumLabels() :: back[t, i] == Back(m, fs, t, i)
  }

  /** Rows below t of both tables hold what the dynamic program says. */
  ghost predicate Filled(m: Model, fs: Features, t: nat, table: array2<Score>, back: array2<nat>)
    requires m.Valid() && t <= |fs|
    requires table.Length0 == back.Length0 == |fs| && table.Length1 == back.Length1 == m.NumLabels()
    reads table, back
  {
    && (forall s: nat | s < t :: RowDone(m, fs, s, table))
    && (forall s: nat | 0 < s < t :: BackDone(m, fs, s, back))
  }

  /** Fills row t of both tables from row t - 1. */
  method FillRow(m: Model, fs: Features, t: nat, table: array2<Score>, back: array2<nat>)
    requires m.Valid() && 0 < t < |fs|
    requires table.Length0 == back.Length0 == |fs| && table.Length1 == back.Length1 == m.NumLabels()
    requires RowDone(m, fs, t - 1, table)
    modifies table, back
    ensures RowDone(m, fs, t, table) && BackDone(m, fs, t, back)
    ensures forall s, i | 0 <= s < |fs| && s != t && 0 <= i < m.NumLabels() ::
              table[s, i] == old(table[s, i]) && back[s, i] == old(back[s, i])
  {
    var nl := m.NumLabels();
    var stateScores := ComputeStateScores(m, fs[t]);
    for j := 0 to nl
      invariant forall i: nat | i < j ::
                  table[t, i] == Finite(Best(m, fs, t, i)) && back[t, i] == Back(m, fs, t, i)
      invariant forall s, i | 0 <= s < |fs| && s != t && 0 <= i < nl ::
                  table[s, i] == old(table[s, i]) && back[s, i] == old(back[s, i])
    {
      assert RowDone(m, fs, t - 1, table);
      var bestScore, bestPrev := NegInf, 0;
      for i := 0 to nl
        invariant i == 0 ==> bestScore == NegInf && bestPrev == 0
        invariant i > 0 ==> bestPrev == Arg(m, fs, t, j, i) && bestScore == Finite(Through(m, fs, t, bestPrev, j))
      {
        var score := table[t - 1, i].Plus(m.transitions[i][j]);
        assert score == Finite(Through(m, fs, t, i, j));
        if bestScore.Less(score) {
          bestScore, bestPrev := score, i;
        }
      }
      table[t, j] := bestScore.Plus(stateScores[j]);
      back[t, j] := bestPrev;
    }
  }

  /** best is the least of the labels with the greatest score at token t. */
  ghost predicate FirstBest(m: Model, fs: Features, t: nat, best: nat)
    requires m.Valid() && t < |fs|
  {
    && best < m.NumLabels()
    && (forall i: nat | i < m.NumLabels() :: Best(m, fs, t, i) <= Best(m, fs, t, best))
    && (forall i: nat | i < best :: Best(m, fs, t, i) < Best(m, fs, t, best))
  }

  method BestFinalLabel(m: Model, fs: Features, t: nat, table: array2<Score>) returns (best: nat)
    requires m.Valid() && t < |fs| == table.Length0 && table.Length1 == m.NumLabels()
    requires RowDone(m, fs, t, table)
    ensures FirstBest(m, fs, t, best)
  {
    best := 0;
    var bestScore := NegInf;
    for j := 0 to m.NumLabels()
      invariant j == 0 ==> bestScore == NegInf && best == 0
      invariant j > 0 ==> best < j && bestScore == Finite(Best(m, fs, t, best))
      invariant forall i: nat | i < j :: Best(m, fs, t, i) <= Best(m, fs, t, best)
      invariant forall i: nat | i < best :: Best(m, fs, t, i) < Best(m, fs, t, best)
    {
      if bestScore.Less(table[t, j]) {
        bestScore, best := table[t, j], j;
      }
    }
  }

  lemma {:induction false} DecodeStep(m: Model, fs: Features, t: nat, j: nat, s: nat)
    requires m.Valid() && t < |fs| && j < m.NumLabels() && s < t
    ensures var x := Decode(m, fs, t, j); x[s] == Back(m, fs, s + 1, x[s + 1])
  {
    if s < t - 1 {
      DecodeStep(m, fs, t - 1, Back(m, fs, t, j), s);
    }
  }

  /** path is what following the backpointers from its last label gives. */
  ghost predicate Linked(m: Model, fs: Features, path: seq<nat>)
    requires m.Valid()
  {
    && |path| == |fs| && Labelling(m, path)
    && forall s: nat | s < |path| - 1 :: path[s] == Back(m, fs, s + 1, path[s + 1])
  }

  lemma DecodeIsLinked(m: Model, fs: Features, best: nat)
    requires m.Valid() && 0 < |fs| && best < m.NumLabels()
    ensures Linked(m, fs, Decode(m, fs, |fs| - 1, best))
  {
    var path := Decode(m, fs, |fs| - 1, best);
    forall s: nat | s < |path| - 1
      ensures path[s] == Back(m, fs, s + 1, path[s + 1])
    {
      DecodeStep(m, fs, |fs| - 1, best, s);
    }
  }

  /** Follows the backpointers from the last token to the first. */
  method Backtrack(m: Model, fs: Features, best: nat, table: array2<Score>, back: array2<nat>, ghost path: seq<nat>)
    returns (labels: seq<nat>, scores: seq<real>)
    requires m.Valid() && |fs| > 0 && best < m.NumLabels()
    requires table.Length0 == back.Length0 == |fs| && table.Length1 == back.Length1 == m.NumLabels()
    requires Filled(m, fs, |fs|, table, back)
    requires Linked(m, fs, path) && path[|fs| - 1] == best
    ensures labels == path
    ensures |scores| == |fs| && forall t: nat | t < |fs| :: scores[t] == Best(m, fs, t, path[t])
  {
    var n := |fs|;
    var lab := new nat[n](_ => 0);
    var sc := new real[n](_ => 0.0);
    assert RowDone(m, fs, n - 1, table);
    lab[n - 1], sc[n - 1] := best, table[n - 1, best].value;
    for t := n - 1 downto 0
      invariant Filled(m, fs, n, table, back)
      invariant forall s: nat | t <= s < n :: lab[s] == path[s] && sc[s] == Best(m, fs, s, path[s])
    {
      assert BackDone(m, fs, t + 1, back) && RowDone(m, fs, t, table);
      lab[t] := back[t + 1, lab[t + 1]];
      sc[t] := table[t, lab[t]].value;
    }
    labels, scores := lab[..], sc[..];
  }

  /** Lifts the per-final-label facts to whole labellings. */
  lemma DecodeIsOptimal(m: Model, fs: Features, best: nat, y: seq<nat>)
    requires m.Valid() && 0 < |fs| && FirstBest(m, fs, |fs| - 1, best)
    requires |y| == |fs| && Labelling(m, y)
    ensures var x := Decode(m, fs, |fs| - 1, best);
            && PathScore(m, fs, y) <= PathScore(m, fs, x)
            && (PathScore(m, fs, y) == PathScore(m, fs, x) ==> y == x || ReverseLess(x, y))
  {
    var n := |fs|;
    DecodeAttainsBest(m, fs, n - 1, best, Decode(m, fs, n - 1, best));
    BestBoundsEveryPath(m, fs, y);
    if PathScore(m, fs, y) == Best(m, fs, n - 1, best) {
      if y[n - 1] == best {
        DecodeIsReverseLeast(m, fs, y);
      } else {
        ReverseLessAtEnd(Decode(m, fs, n - 1, best), y);
      }
    }
  }

  lemma {:induction false} DecodePrefixAttainsBest(m: Model, fs: Features, t: nat, j: nat, s: nat)
    requires m.Valid() && t < |fs| && j < m.NumLabels() && s <= t
    ensures var x := Decode(m, fs, t, j); PathScore(m, fs, x[..s + 1]) == Best(m, fs, s, x[s])
  {
    var x := Decode(m, fs, t, j);
    if s == t {
      DecodeAttainsBest(m, fs, t, j, x);
      assert x[..s + 1] == x;
    } else {
      var i := Back(m, fs, t, j);
      DecodePrefixAttainsBest(m, fs, t - 1, i, s);
      assert x[..s + 1] == Decode(m, fs, t - 1, i)[..s + 1];
    }
  }

  /** A best labelling, of those the reverse-lexicographically least one, and the scores of its prefixes. */
  ghost predicate Optimal(m: Model, fs: Features, labels: seq<nat>, scores: seq<real>)
    requires m.Valid() && |fs| > 0
  {
    && |labels| == |scores| == |fs| && Labelling(m, labels)
    && (forall y | |y| == |fs| && Labelling(m, y) :: PathScore(m, fs, y) <= PathScore(m, fs, labels))
    && (forall y | |y| == |fs| && Labelling(m, y) && PathScore(m, fs, y) == PathScore(m, fs, labels) ::
          y == labels || ReverseLess(labels, y))
    && (forall t | 0 <= t < |fs| :: scores[t] == PathScore(m, fs, labels[..t + 1]))
  }

  lemma TailsAgree(x: seq<nat>, y: seq<nat>, k: nat)
    requires |x| == |y| && k <= |x| && x[k..] == y[k..]
    ensures forall i | k <= i < |x| :: x[i] == y[i]
  {
    forall i | k <= i < |x|
      ensures x[i] == y[i]
    {
      assert x[k..][i - k] == y[k..][i - k];
    }
  }

  lemma ReverseLessIsAntisymmetric(x: seq<nat>, y: seq<nat>)
    requires ReverseLess(x, y)
    ensures !ReverseLess(y, x)
  {
    var k :| 0 <= k < |x| && x[k] < y[k] && x[k + 1..] == y[k + 1..];
    TailsAgree(x, y, k + 1);
    forall j | 0 <= j < |x| && y[j] < x[j]
      ensures y[j + 1..] != x[j + 1..]
    {
      assert j < k;
      assert x[j + 1..][k - j - 1] < y[j + 1..][k - j - 1];
    }
  }

  /** There is one result only. */
  lemma OptimalIsUnique(m: Model, fs: Features, labels: seq<nat>, scores: seq<real>, labels': seq<nat>,
                        scores': seq<real>)
    requires m.Valid() && |fs| > 0
    requires Optimal(m, fs, labels, scores) && Optimal(m, fs, labels', scores')
    ensures labels == labels' && scores == scores'
  {
    if labels != labels' {
      ReverseLessIsAntisymmetric(labels, labels');
    }
  }

  /** Decodes a non-empty feature sequence. The result is optimal among all labellings, is the
      reverse-lexicographically least optimal one, and scores[t] is the score of its prefix up to t. */
  method Viterbi(m: Model, fs: Features) returns (labels: seq<nat>, scores: seq<real>)
    requires m.Valid() && |fs| > 0
    ensures Optimal(m, fs, labels, scores)
  {
    var n, nl := |fs|, m.NumLabels();
    var table := new Score[n, nl]((_, _) => NegInf);
    var back := new nat[n, nl]((_, _) => 0);
    var first := ComputeStateScores(m, fs[0]);
    for j := 0 to nl
      invariant forall i: nat | i < j :: table[0, i] == Finite(Best(m, fs, 0, i))
    {
      table[0, j] := Finite(first[j]);
    }
    for t := 1 to n
      invariant Filled(m, fs, t, table, back)
    {
      label before:
      FillRow(m, fs, t, table, back);
      forall s: nat | s < t
        ensures RowDone(m, fs, s, table)
        ensures s > 0 ==> BackDone(m, fs, s, back)
      {
        assert old@before(RowDone(m, fs, s, table));
        assert s > 0 ==> old@before(BackDone(m, fs, s, back));
      }
    }
    var best := BestFinalLabel(m, fs, n - 1, table);
    DecodeIsLinked(m, fs, best);
    labels, scores := Backtrack(m, fs, best, table, back, Decode(m, fs, n - 1, best));
    forall y | |y| == n && Labelling(m, y)
      ensures PathScore(m, fs, y) <= PathScore(m, fs, labels)
      ensures PathScore(m, fs, y) == PathScore(m, fs, labels) ==> y == labels || ReverseLess(labels, y)
    {
      DecodeIsOptimal(m, fs, best, y);
    }
    forall t | 0 <= t < n
      ensures scores[t] == PathScore(m, fs, labels[..t + 1])
    {
      DecodePrefixAttainsBest(m, fs, n - 1, best, t);
    }
  }
}
