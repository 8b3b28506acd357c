/** Exactly which matches the JSON scan reports, at every nesting depth, and which parts of a string they
    cover (hybrid_scanner.rs). */
module JsonCoverage {
  import opened Text
  import opened Pii
  import opened Json
  import opened JsonScan
  import opened JsonMatches

  // ---- What one string contributes ----

  /** The match is one the text scan finds in the string itself. */
  ghost predicate OwnMatch(c: Scanner, leaf: Leaf, r: PiiMatch) {
    exists j :: 0 <= j < |c.scan(leaf.text)| && r == c.scan(leaf.text)[j].(jsonPath := Some(leaf.path))
  }

  /** The nested match moved to a position of the string. */
  function Moved(m: PiiMatch, pos: nat, path: string): PiiMatch {
    m.(start := pos, end := pos + |m.rawValue|, jsonPath := Some(path))
  }

  /** The value of the nested match occurs literally, and nothing reported so far overlaps the first place
      where it does. */
  predicate Unblocked(text: string, m: PiiMatch, turn: seq<PiiMatch>) {
    var pos := FindFrom(text, m.rawValue, 0);
    pos.Some? && !OverlapsAny(turn, pos.value, pos.value + |m.rawValue|)
  }

  lemma RecoverIsUnblocked(text: string, path: string, m: PiiMatch, turn: seq<PiiMatch>)
    ensures Recover(text, path, m, turn)
            == if Unblocked(text, m, turn) then [Moved(m, FindFrom(text, m.rawValue, 0).value, path)] else []
  {
  }

  lemma {:induction false} RecoverAllSplit(s: string, path: string, inner: seq<PiiMatch>, acc: seq<PiiMatch>, i: nat)
    requires i <= |inner|
    ensures RecoverAll(s, path, inner, acc) == RecoverAll(s, path, inner[i..], RecoverAll(s, path, inner[..i], acc))
    decreases i
  {
    if i == 0 {
      assert inner[0..] == inner;
    } else {
      RecoverAllSplit(s, path, inner[1..], acc + Recover(s, path, inner[0], acc), i - 1);
      assert inner[..i][1..] == inner[1..][..i - 1] && inner[1..][i - 1..] == inner[i..];
    }
  }

  lemma RecoverLast(s: string, path: string, front: seq<PiiMatch>, last: PiiMatch, acc: seq<PiiMatch>)
    ensures var turn := RecoverAll(s, path, front, acc);
            RecoverAll(s, path, front + [last], acc) == turn + Recover(s, path, last, turn)
  {
    var inner, turn := front + [last], RecoverAll(s, path, front, acc);
    RecoverAllSplit(s, path, inner, acc, |front|);
    assert inner[..|front|] == front && inner[|front|..] == [last];
    var next := turn + Recover(s, path, last, turn);
    assert RecoverAll(s, path, [last], turn) == RecoverAll(s, path, [], next);
  }

  /** The i-th nested match is reported as r at its turn. */
  ghost predicate TakenFrom(s: string, path: string, inner: seq<PiiMatch>, acc: seq<PiiMatch>, i: nat, r: PiiMatch) {
    && i < |inner|
    && Unblocked(s, inner[i], RecoverAll(s, path, inner[..i], acc))
    && r == Moved(inner[i], FindFrom(s, inner[i].rawValue, 0).value, path)
  }

  lemma TakenFromMore(s: string, path: string, front: seq<PiiMatch>, last: PiiMatch, acc: seq<PiiMatch>, i: nat,
                      r: PiiMatch)
    requires i < |front|
    ensures TakenFrom(s, path, front + [last], acc, i, r) <==> TakenFrom(s, path, front, acc, i, r)
  {
    assert (front + [last])[..i] == front[..i];
  }

  lemma {:induction false} RecoveredIff(s: string, path: string, inner: seq<PiiMatch>, acc: seq<PiiMatch>, r: PiiMatch)
    ensures r in RecoverAll(s, path, inner, acc) <==> r in acc || exists i: nat :: TakenFrom(s, path, inner, acc, i, r)
    decreases |inner|
  {
    if inner != [] {
      var front, last := inner[..|inner| - 1], inner[|inner| - 1];
      var turn := RecoverAll(s, path, front, acc);
      assert inner == front + [last];
      RecoveredIff(s, path, front, acc, r);
      RecoverLast(s, path, front, last, acc);
      RecoverIsUnblocked(s, path, last, turn);
      forall i: nat | i < |front|
        ensures TakenFrom(s, path, inner, acc, i, r) <==> TakenFrom(s, path, front, acc, i, r)
      {
        TakenFromMore(s, path, front, last, acc, i, r);
      }
      assert inner[..|front|] == front;
      LastOrEarlier(s, path, inner, front, acc, r);
    }
  }

  lemma LastOrEarlier(s: string, path: string, inner: seq<PiiMatch>, front: seq<PiiMatch>, acc: seq<PiiMatch>,
                      r: PiiMatch)
    requires |inner| == |front| + 1
    requires forall i: nat | i < |front| ::
               TakenFrom(s, path, inner, acc, i, r) <==> TakenFrom(s, path, front, acc, i, r)
    ensures (exists i: nat :: TakenFrom(s, path, inner, acc, i, r))
            <==> (exists i: nat :: TakenFrom(s, path, front, acc, i, r)) || TakenFrom(s, path, inner, acc, |front|, r)
  {
    if i: nat :| TakenFrom(s, path, inner, acc, i, r) {
      assert i < |front| ==> TakenFrom(s, path, front, acc, i, r);
    }
    if i: nat :| TakenFrom(s, path, front, acc, i, r) {
      assert TakenFrom(s, path, inner, acc, i, r);
    }
  }

  /** What has been reported when the i-th nested match of a leaf has its turn. */
  function AtTurn(c: Scanner, leaf: Leaf, depth: nat, acc: seq<PiiMatch>, i: nat): seq<PiiMatch>
    requires depth <= MAX_NESTED_JSON_DEPTH && i < |Inner(c, leaf.text, depth)|
  {
    RecoverAll(leaf.text, leaf.path, Inner(c, leaf.text, depth)[..i], acc + WithPath(c.scan(leaf.text), leaf.path))
  }

  /** The i-th nested match of the leaf, not blocked at its turn, is reported as r. */
  ghost predicate Taken(c: Scanner, leaf: Leaf, depth: nat, acc: seq<PiiMatch>, i: nat, r: PiiMatch)
    requires depth <= MAX_NESTED_JSON_DEPTH
  {
    && i < |Inner(c, leaf.text, depth)|
    && var m := Inner(c, leaf.text, depth)[i];
    && Unblocked(leaf.text, m, AtTurn(c, leaf, depth, acc, i))
    && r == Moved(m, FindFrom(leaf.text, m.rawValue, 0).value, leaf.path)
  }

  ghost predicate TakenSome(c: Scanner, leaf: Leaf, depth: nat, acc: seq<PiiMatch>, r: PiiMatch)
    requires depth <= MAX_NESTED_JSON_DEPTH
  {
    exists i: nat :: Taken(c, leaf, depth, acc, i, r)
  }

  lemma InEither(a: seq<PiiMatch>, b: seq<PiiMatch>, r: PiiMatch)
    ensures r in a + b <==> r in a || r in b
  {
  }

  lemma OwnMatchesIff(c: Scanner, leaf: Leaf, r: PiiMatch)
    ensures r in WithPath(c.scan(leaf.text), leaf.path) <==> OwnMatch(c, leaf, r)
  {
    var own := WithPath(c.scan(leaf.text), leaf.path);
    if OwnMatch(c, leaf, r) {
      var j :| 0 <= j < |c.scan(leaf.text)| && r == c.scan(leaf.text)[j].(jsonPath := Some(leaf.path));
      assert own[j] == r;
    }
  }

  lemma LeafReportsIff(c: Scanner, leaf: Leaf, depth: nat, acc: seq<PiiMatch>, r: PiiMatch)
    requires depth <= MAX_NESTED_JSON_DEPTH
    ensures r in ScanLeaf(c, leaf, depth, acc)
            <==> r in acc || OwnMatch(c, leaf, r) || TakenSome(c, leaf, depth, acc, r)
  {
    var own, inner := WithPath(c.scan(leaf.text), leaf.path), Inner(c, leaf.text, depth);
    RecoveredIff(leaf.text, leaf.path, inner, acc + own, r);
    InEither(acc, own, r);
    OwnMatchesIff(c, leaf, r);
    forall i: nat
      ensures TakenFrom(leaf.text, leaf.path, inner, acc + own, i, r) <==> Taken(c, leaf, depth, acc, i, r)
    {
    }
  }

  // ---- What a whole walk reports ----

  /** Where the k-th leaf of a walk puts r: its own match, or a nested one not blocked at its turn. */
  ghost predicate ComesFrom(c: Scanner, leaves: seq<Leaf>, depth: nat, k: nat, r: PiiMatch)
    requires depth <= MAX_NESTED_JSON_DEPTH
  {
    && k < |leaves|
    && (OwnMatch(c, leaves[k], r) || TakenSome(c, leaves[k], depth, Fold(c, leaves[..k], depth, []), r))
  }

  lemma ComesFromMore(c: Scanner, front: seq<Leaf>, leaf: Leaf, depth: nat, k: nat, r: PiiMatch)
    requires depth <= MAX_NESTED_JSON_DEPTH && k < |front|
    ensures ComesFrom(c, front + [leaf], depth, k, r) <==> ComesFrom(c, front, depth, k, r)
  {
    assert (front + [leaf])[..k] == front[..k];
  }

  lemma ComesFromLast(c: Scanner, front: seq<Leaf>, leaf: Leaf, depth: nat, r: PiiMatch)
    requires depth <= MAX_NESTED_JSON_DEPTH
    ensures ComesFrom(c, front + [leaf], depth, |front|, r)
            <==> OwnMatch(c, leaf, r) || TakenSome(c, leaf, depth, Fold(c, front, depth, []), r)
  {
    var leaves := front + [leaf];
    assert leaves[..|front|] == front && leaves[|front|] == leaf;
  }

  ghost predicate ComesFromSome(c: Scanner, leaves: seq<Leaf>, depth: nat, r: PiiMatch)
    requires depth <= MAX_NESTED_JSON_DEPTH
  {
    exists k: nat :: ComesFrom(c, leaves, depth, k, r)
  }

  /** Exactly what a walk reports, at any nesting depth. */
  lemma {:induction false} FoldReportsIff(c: Scanner, leaves: seq<Leaf>, depth: nat, r: PiiMatch)
    requires depth <= MAX_NESTED_JSON_DEPTH
    ensures r in Fold(c, leaves, depth, []) <==> ComesFromSome(c, leaves, depth, r)
    decreases |leaves|
  {
    if leaves != [] {
      var front, leaf := leaves[..|leaves| - 1], leaves[|leaves| - 1];
      assert front + [leaf] == leaves;
      FoldSnoc(c, front, leaf, depth, []);
      FoldReportsIff(c, front, depth, r);
      LeafReportsIff(c, leaf, depth, Fold(c, front, depth, []), r);
      ComesFromLast(c, front, leaf, depth, r);
      forall k: nat | k < |front|
        ensures ComesFrom(c, leaves, depth, k, r) <==> ComesFrom(c, front, depth, k, r)
      {
        ComesFromMore(c, front, leaf, depth, k, r);
      }
      EarlierLeafOrLast(c, leaves, front, depth, r);
    }
  }

  lemma EarlierLeafOrLast(c: Scanner, leaves: seq<Leaf>, front: seq<Leaf>, depth: nat, r: PiiMatch)
    requires depth <= MAX_NESTED_JSON_DEPTH && |leaves| == |front| + 1
    requires forall k: nat | k < |front| :: ComesFrom(c, leaves, depth, k, r) <==> ComesFrom(c, front, depth, k, r)
    ensures ComesFromSome(c, leaves, depth, r)
            <==> ComesFromSome(c, front, depth, r) || ComesFrom(c, leaves, depth, |front|, r)
  {
    if k: nat :| ComesFrom(c, leaves, depth, k, r) {
      assert k < |front| ==> ComesFrom(c, front, depth, k, r);
    }
    if k: nat :| ComesFrom(c, front, depth, k, r) {
      assert ComesFrom(c, leaves, depth, k, r);
    }
  }

  /** Exactly what is found in the JSON nested in a string: nothing below the depth limit, nothing in what does
      not stand in braces or brackets or does not parse, and otherwise what the walk one level down reports. */
  lemma InnerReportsIff(c: Scanner, s: string, depth: nat, r: PiiMatch)
    requires depth <= MAX_NESTED_JSON_DEPTH
    ensures r in Inner(c, s, depth)
            <==> depth < 2 && Enclosed(c.trim(s)) && c.parse(c.trim(s)).Some?
                 && ComesFromSome(c, Leaves(c.skip, c.parse(c.trim(s)).value, []), depth + 1, r)
  {
    NestedIsWalked(c, s, depth);
    if depth < 2 && Enclosed(c.trim(s)) && c.parse(c.trim(s)).Some? {
      FoldReportsIff(c, Leaves(c.skip, c.parse(c.trim(s)).value, []), depth + 1, r);
    }
  }

  lemma BlockedAfterTurn(s: string, path: string, m: PiiMatch, turn: seq<PiiMatch>, pos: nat)
    requires m.rawValue != "" && FindFrom(s, m.rawValue, 0) == Some(pos)
    ensures OverlapsAny(turn + Recover(s, path, m, turn), pos, pos + |m.rawValue|)
  {
    var one := Recover(s, path, m, turn);
    OverlapsAnyConcat(turn, one, pos, pos + |m.rawValue|);
    assert one != [] ==> one[0].start == pos && one[0].end == pos + |m.rawValue|;
  }

  lemma TurnsGrow(s: string, path: string, inner: seq<PiiMatch>, acc: seq<PiiMatch>, i: nat, j: nat)
    requires i <= j <= |inner|
    ensures RecoverAll(s, path, inner[..i], acc) <= RecoverAll(s, path, inner[..j], acc)
  {
    RecoverAllSplit(s, path, inner[..j], acc, i);
    assert inner[..j][..i] == inner[..i];
    RecoverAllAppends(s, path, inner[..j][i..], RecoverAll(s, path, inner[..i], acc));
  }

  lemma RepeatedIsBlockedIn(s: string, path: string, inner: seq<PiiMatch>, acc: seq<PiiMatch>, i: nat, j: nat)
    requires i < j < |inner| && inner[i].rawValue == inner[j].rawValue != ""
    ensures !Unblocked(s, inner[j], RecoverAll(s, path, inner[..j], acc))
  {
    var pos := FindFrom(s, inner[i].rawValue, 0);
    if pos.Some? {
      var turn, next, later := RecoverAll(s, path, inner[..i], acc), RecoverAll(s, path, inner[..i + 1], acc),
                               RecoverAll(s, path, inner[..j], acc);
      assert inner[..i + 1] == inner[..i] + [inner[i]];
      RecoverLast(s, path, inner[..i], inner[i], acc);
      BlockedAfterTurn(s, path, inner[i], turn, pos.value);
      TurnsGrow(s, path, inner, acc, i + 1, j);
      OverlapsAnyConcat(next, later[|next|..], pos.value, pos.value + |inner[i].rawValue|);
      assert next + later[|next|..] == later;
    }
  }

  /** Of nested matches with one value at most the first to have its turn is reported. */
  lemma RepeatedIsBlocked(c: Scanner, leaf: Leaf, depth: nat, acc: seq<PiiMatch>, i: nat, j: nat)
    requires depth <= MAX_NESTED_JSON_DEPTH && i < j < |Inner(c, leaf.text, depth)|
    requires Inner(c, leaf.text, depth)[i].rawValue == Inner(c, leaf.text, depth)[j].rawValue != ""
    ensures !Unblocked(leaf.text, Inner(c, leaf.text, depth)[j], AtTurn(c, leaf, depth, acc, j))
  {
    RepeatedIsBlockedIn(leaf.text, leaf.path, Inner(c, leaf.text, depth),
                        acc + WithPath(c.scan(leaf.text), leaf.path), i, j);
  }

  // ---- Which path a match carries ----

  ghost predicate HasPathOf(leaves: seq<Leaf>, m: PiiMatch) {
    exists k :: 0 <= k < |leaves| && m.jsonPath == Some(leaves[k].path)
  }

  ghost predicate AllHave(leaves: seq<Leaf>, ms: seq<PiiMatch>, from: nat) {
    forall k | from <= k < |ms| :: HasPathOf(leaves, ms[k])
  }

  ghost predicate CarryPath(path: string, ms: seq<PiiMatch>, from: nat) {
    forall k | from <= k < |ms| :: ms[k].jsonPath == Some(path)
  }

  lemma {:induction false} RecoveredHavePath(s: string, path: string, inner: seq<PiiMatch>, acc: seq<PiiMatch>, n: nat)
    requires n <= |acc| && CarryPath(path, acc, n)
    ensures CarryPath(path, RecoverAll(s, path, inner, acc), n)
    decreases |inner|
  {
    if inner != [] {
      var one := Recover(s, path, inner[0], acc);
      assert forall k | |acc| <= k < |acc + one| :: (acc + one)[k] == one[k - |acc|];
      RecoveredHavePath(s, path, inner[1..], acc + one, n);
    }
  }

  lemma ScanLeafHasPath(c: Scanner, leaf: Leaf, acc: seq<PiiMatch>)
    ensures acc <= ScanLeaf(c, leaf, 0, acc) && AllHave([leaf], ScanLeaf(c, leaf, 0, acc), |acc|)
  {
    var path := leaf.path;
    var found := WithPath(c.scan(leaf.text), path);
    var all := ScanLeaf(c, leaf, 0, acc);
    ScanLeafAppends(c, leaf, 0, acc);
    assert forall k | |acc| <= k < |acc + found| :: (acc + found)[k] == found[k - |acc|];
    RecoveredHavePath(leaf.text, path, Inner(c, leaf.text, 0), acc + found, |acc|);
    assert CarryPath(path, all, |acc|);
    forall k | |acc| <= k < |all|
      ensures HasPathOf([leaf], all[k])
    {
      assert all[k].jsonPath == Some([leaf][0].path);
    }
  }

  lemma HasPathInMore(a: seq<Leaf>, b: seq<Leaf>, m: PiiMatch)
    ensures HasPathOf(a + b, m) <==> HasPathOf(a, m) || HasPathOf(b, m)
  {
    assert forall k | 0 <= k < |a| :: (a + b)[k] == a[k];
    assert forall k | 0 <= k < |b| :: (a + b)[|a| + k] == b[k];
  }

  lemma PathsGrow(front: seq<Leaf>, leaf: Leaf, acc: seq<PiiMatch>, before: seq<PiiMatch>, all: seq<PiiMatch>)
    requires acc <= before <= all && AllHave(front, before, |acc|) && AllHave([leaf], all, |before|)
    ensures acc <= all && AllHave(front + [leaf], all, |acc|)
  {
    forall k | |acc| <= k < |all|
      ensures HasPathOf(front + [leaf], all[k])
    {
      HasPathInMore(front, [leaf], all[k]);
      if k < |before| {
        assert all[k] == before[k];
      }
    }
  }

  lemma {:induction false} FoldHasPaths(c: Scanner, leaves: seq<Leaf>, acc: seq<PiiMatch>)
    ensures acc <= Fold(c, leaves, 0, acc) && AllHave(leaves, Fold(c, leaves, 0, acc), |acc|)
    decreases |leaves|
  {
    if leaves != [] {
      var front, leaf := leaves[..|leaves| - 1], leaves[|leaves| - 1];
      var before := Fold(c, front, 0, acc);
      FoldHasPaths(c, front, acc);
      FoldSnoc(c, front, leaf, 0, acc);
      assert front + [leaf] == leaves;
      ScanLeafHasPath(c, leaf, before);
      PathsGrow(front, leaf, acc, before, ScanLeaf(c, leaf, 0, before));
    }
  }

  // ---- Which parts of a string a walk covers ----

  /** Some match with the path overlaps the span. */
  ghost predicate OverlapsOn(ms: seq<PiiMatch>, path: string, start: nat, end: nat) {
    exists k :: 0 <= k < |ms| && ms[k].jsonPath == Some(path) && start < ms[k].end && end > ms[k].start
  }

  lemma OverlapsOnConcat(a: seq<PiiMatch>, b: seq<PiiMatch>, path: string, start: nat, end: nat)
    ensures OverlapsOn(a + b, path, start, end) <==> OverlapsOn(a, path, start, end) || OverlapsOn(b, path, start, end)
  {
    assert forall k | 0 <= k < |a| :: (a + b)[k] == a[k];
    assert forall k | 0 <= k < |b| :: (a + b)[|a| + k] == b[k];
  }

  /** A match of the text scan of the string itself overlaps the span. */
  ghost predicate OwnOverlaps(c: Scanner, leaf: Leaf, start: nat, end: nat) {
    exists r :: OwnMatch(c, leaf, r) && start < r.end && end > r.start
  }

  /** What a walk has reported when the i-th nested match of its k-th leaf has its turn. */
  function Turn(c: Scanner, leaves: seq<Leaf>, depth: nat, k: nat, i: nat): seq<PiiMatch>
    requires depth <= MAX_NESTED_JSON_DEPTH && k < |leaves| && i < |Inner(c, leaves[k].text, depth)|
  {
    AtTurn(c, leaves[k], depth, Fold(c, leaves[..k], depth, []), i)
  }

  /** Some nested match of the k-th leaf that is not blocked at its turn has a value whose first occurrence
      overlaps the span. */
  ghost predicate NestedOverlaps(c: Scanner, leaves: seq<Leaf>, depth: nat, k: nat, start: nat, end: nat)
    requires depth <= MAX_NESTED_JSON_DEPTH && k < |leaves|
  {
    var text := leaves[k].text;
    exists i ::
      && 0 <= i < |Inner(c, text, depth)|
      && Unblocked(text, Inner(c, text, depth)[i], Turn(c, leaves, depth, k, i))
      && var pos := FindFrom(text, Inner(c, text, depth)[i].rawValue, 0).value;
         start < pos + |Inner(c, text, depth)[i].rawValue| && end > pos
  }

  lemma ComesWithPath(c: Scanner, leaves: seq<Leaf>, depth: nat, k: nat, r: PiiMatch)
    requires depth <= MAX_NESTED_JSON_DEPTH && ComesFrom(c, leaves, depth, k, r)
    ensures r.jsonPath == Some(leaves[k].path)
  {
  }

  lemma LeafOverlapsIff(c: Scanner, leaves: seq<Leaf>, depth: nat, k: nat, start: nat, end: nat)
    requires depth <= MAX_NESTED_JSON_DEPTH && k < |leaves|
    ensures (exists r :: ComesFrom(c, leaves, depth, k, r) && start < r.end && end > r.start)
            <==> OwnOverlaps(c, leaves[k], start, end) || NestedOverlaps(c, leaves, depth, k, start, end)
  {
    var leaf, before := leaves[k], Fold(c, leaves[..k], depth, []);
    var inner := Inner(c, leaf.text, depth);
    if r :| ComesFrom(c, leaves, depth, k, r) && start < r.end && end > r.start {
      if !OwnMatch(c, leaf, r) {
        var i: nat :| Taken(c, leaf, depth, before, i, r);
        assert Unblocked(leaf.text, inner[i], Turn(c, leaves, depth, k, i));
      }
    }
    if r :| OwnMatch(c, leaf, r) && start < r.end && end > r.start {
      assert ComesFrom(c, leaves, depth, k, r);
    }
    if i :| 0 <= i < |inner| && Unblocked(leaf.text, inner[i], Turn(c, leaves, depth, k, i))
            && var pos := FindFrom(leaf.text, inner[i].rawValue, 0).value;
               start < pos + |inner[i].rawValue| && end > pos {
      var r := Moved(inner[i], FindFrom(leaf.text, inner[i].rawValue, 0).value, leaf.path);
      assert Taken(c, leaf, depth, before, i, r);
      assert ComesFrom(c, leaves, depth, k, r);
    }
  }

  /** The k-th leaf has the path and puts a match over part of the span: one of its text scan, or a nested one
      not blocked at its own turn, whose value first occurs there. */
  ghost predicate LeafCovers(c: Scanner, leaves: seq<Leaf>, depth: nat, k: nat, path: string, start: nat, end: nat)
    requires depth <= MAX_NESTED_JSON_DEPTH
  {
    && k < |leaves| && leaves[k].path == path
    && (OwnOverlaps(c, leaves[k], start, end) || NestedOverlaps(c, leaves, depth, k, start, end))
  }

  ghost predicate WalkCovers(c: Scanner, leaves: seq<Leaf>, depth: nat, path: string, start: nat, end: nat)
    requires depth <= MAX_NESTED_JSON_DEPTH
  {
    exists k: nat :: LeafCovers(c, leaves, depth, k, path, start, end)
  }

  lemma SomeCoversIff(c: Scanner, leaves: seq<Leaf>, depth: nat, path: string, start: nat, end: nat)
    requires depth <= MAX_NESTED_JSON_DEPTH
    ensures WalkCovers(c, leaves, depth, path, start, end)
            <==> exists r :: ComesFromSome(c, leaves, depth, r)
                             && r.jsonPath == Some(path) && start < r.end && end > r.start
  {
    if k: nat :| LeafCovers(c, leaves, depth, k, path, start, end) {
      LeafOverlapsIff(c, leaves, depth, k, start, end);
      var r :| ComesFrom(c, leaves, depth, k, r) && start < r.end && end > r.start;
      ComesWithPath(c, leaves, depth, k, r);
      assert ComesFromSome(c, leaves, depth, r);
    }
    if r :| ComesFromSome(c, leaves, depth, r) && r.jsonPath == Some(path) && start < r.end && end > r.start {
      var k: nat :| ComesFrom(c, leaves, depth, k, r);
      ComesWithPath(c, leaves, depth, k, r);
      LeafOverlapsIff(c, leaves, depth, k, start, end);
      assert LeafCovers(c, leaves, depth, k, path, start, end);
    }
  }

  lemma OverlapIsMatch(ms: seq<PiiMatch>, path: string, start: nat, end: nat)
    ensures OverlapsOn(ms, path, start, end)
            <==> exists r :: r in ms && r.jsonPath == Some(path) && start < r.end && end > r.start
  {
    if r :| r in ms && r.jsonPath == Some(path) && start < r.end && end > r.start {
      var k :| 0 <= k < |ms| && ms[k] == r;
    }
    if OverlapsOn(ms, path, start, end) {
      var k :| 0 <= k < |ms| && ms[k].jsonPath == Some(path) && start < ms[k].end && end > ms[k].start;
      assert ms[k] in ms;
    }
  }

  /** The exact condition under which a walk, at any depth, covers part of what a path names: some string with
      that path does. */
  lemma FoldCoversIff(c: Scanner, leaves: seq<Leaf>, depth: nat, path: string, start: nat, end: nat)
    requires depth <= MAX_NESTED_JSON_DEPTH
    ensures OverlapsOn(Fold(c, leaves, depth, []), path, start, end)
            <==> WalkCovers(c, leaves, depth, path, start, end)
  {
    var ms := Fold(c, leaves, depth, []);
    OverlapIsMatch(ms, path, start, end);
    SomeCoversIff(c, leaves, depth, path, start, end);
    forall r
      ensures r in ms <==> ComesFromSome(c, leaves, depth, r)
    {
      FoldReportsIff(c, leaves, depth, r);
    }
  }

  // ---- The whole scan ----

  /** The leaves that are scanned in one walk: all of them, or those under the g-th entry. */
  function WalkedWith(c: Scanner, json: Value, g: nat): seq<Leaf> {
    if |Entries(c.skip, json)| <= 1 then Leaves(c.skip, json, [])
    else if g < Arity(json) then LeavesAt(c.skip, json, [], g)
    else []
  }

  ghost predicate InGroup(c: Scanner, group: seq<Leaf>, r: PiiMatch) {
    r in Fold(c, group, 0, [])
  }

  lemma {:induction false} SpreadReportsIff(c: Scanner, joined: nat -> seq<Leaf>, group: nat -> seq<Leaf>,
                                            spread: nat -> seq<PiiMatch>, n: nat, r: PiiMatch)
    requires Grouped(c, joined, group, spread, n)
    ensures r in spread(n) <==> exists g: nat :: g < n && InGroup(c, group(g), r)
  {
    if n > 0 {
      var k: nat := n - 1;
      assert spread(k + 1) == spread(k) + Fold(c, group(k), 0, []);
      InEither(spread(k), Fold(c, group(k), 0, []), r);
      assert InGroup(c, group(k), r) <==> r in Fold(c, group(k), 0, []);
      SpreadReportsIff(c, joined, group, spread, k, r);
    }
  }

  /** The walk over the g-th group reports r. */
  ghost predicate InWalk(c: Scanner, json: Value, g: nat, r: PiiMatch) {
    InGroup(c, WalkedWith(c, json, g), r)
  }

  lemma WalkOfGroup(c: Scanner, json: Value, group: nat -> seq<Leaf>, g: nat, r: PiiMatch)
    requires |Entries(c.skip, json)| > 1
    requires group(g) == if g < Arity(json) then LeavesAt(c.skip, json, [], g) else []
    ensures InWalk(c, json, g, r) <==> g < Arity(json) && InGroup(c, group(g), r)
  {
  }

  lemma GroupsReportIff(c: Scanner, json: Value, group: nat -> seq<Leaf>, r: PiiMatch)
    requires |Entries(c.skip, json)| > 1
    requires forall g: nat :: group(g) == if g < Arity(json) then LeavesAt(c.skip, json, [], g) else []
    ensures (exists g: nat :: g < Arity(json) && InGroup(c, group(g), r)) <==> exists g: nat :: InWalk(c, json, g, r)
  {
    forall g: nat
      ensures InWalk(c, json, g, r) <==> g < Arity(json) && InGroup(c, group(g), r)
    {
      WalkOfGroup(c, json, group, g, r);
    }
  }

  lemma EntriesReportIff(c: Scanner, json: Value, r: PiiMatch)
    requires |Entries(c.skip, json)| > 1
    ensures r in Scanned(c, json) <==> exists g: nat :: InWalk(c, json, g, r)
  {
    var n := Arity(json);
    var joined := (k: nat) => if k <= n then LeavesTo(c.skip, json, [], k) else [];
    var group := (k: nat) => if k < n then LeavesAt(c.skip, json, [], k) else [];
    var spread := (k: nat) => if k <= n then Spread(c, EntriesTo(c.skip, json, k)) else [];
    EntriesAreGrouped(c, json, joined, group, spread, n);
    SpreadReportsIff(c, joined, group, spread, n, r);
    GroupsReportIff(c, json, group, r);
  }

  /** Exactly what the whole scan reports. */
  lemma ScanReportsIff(c: Scanner, json: Value, r: PiiMatch)
    ensures r in Scanned(c, json) <==> exists g: nat :: ComesFromSome(c, WalkedWith(c, json, g), 0, r)
  {
    forall g: nat
      ensures InWalk(c, json, g, r) <==> ComesFromSome(c, WalkedWith(c, json, g), 0, r)
    {
      FoldReportsIff(c, WalkedWith(c, json, g), 0, r);
    }
    if |Entries(c.skip, json)| <= 1 {
      assert InWalk(c, json, 0, r) <==> r in Scanned(c, json);
    } else {
      EntriesReportIff(c, json, r);
    }
  }

  /** The same for the whole scan of any body. */
  lemma ScanCoversIff(c: Scanner, json: Value, path: string, start: nat, end: nat)
    ensures OverlapsOn(Scanned(c, json), path, start, end)
            <==> exists g: nat :: WalkCovers(c, WalkedWith(c, json, g), 0, path, start, end)
  {
    OverlapIsMatch(Scanned(c, json), path, start, end);
    forall r
      ensures r in Scanned(c, json) <==> exists g: nat :: ComesFromSome(c, WalkedWith(c, json, g), 0, r)
    {
      ScanReportsIff(c, json, r);
    }
    forall g: nat {
      SomeCoversIff(c, WalkedWith(c, json, g), 0, path, start, end);
    }
  }

  // ---- When a value is covered ----

  predicate OccursAt(text: string, raw: string, pos: nat) {
    raw != "" && pos + |raw| <= |text| && text[pos..pos + |raw|] == raw
  }

  /** The value occurs in the text, and a match with the text's path overlaps its first occurrence. */
  ghost predicate Covered(text: string, path: string, raw: string, ms: seq<PiiMatch>) {
    var pos := FindFrom(text, raw, 0);
    pos.Some? && OverlapsOn(ms, path, pos.value, pos.value + |raw|)
  }

  /** The value occurs, and all matches reported so far that overlap its first occurrence, at least one,
      have other paths. */
  ghost predicate Hidden(text: string, path: string, raw: string, ms: seq<PiiMatch>) {
    var pos := FindFrom(text, raw, 0);
    && pos.Some?
    && OverlapsAny(ms, pos.value, pos.value + |raw|) && !OverlapsOn(ms, path, pos.value, pos.value + |raw|)
  }

  /** A nested match is covered right after its turn exactly if its value occurs and matches with other
      paths do not hide it. */
  lemma CoveredAtTurnIff(s: string, path: string, m: PiiMatch, turn: seq<PiiMatch>)
    requires m.rawValue != ""
    ensures Covered(s, path, m.rawValue, turn + Recover(s, path, m, turn))
            <==> FindFrom(s, m.rawValue, 0).Some? && !Hidden(s, path, m.rawValue, turn)
  {
    var one, pos := Recover(s, path, m, turn), FindFrom(s, m.rawValue, 0);
    if pos.Some? {
      OverlapsOnConcat(turn, one, path, pos.value, pos.value + |m.rawValue|);
      assert one != [] ==> one[0].jsonPath == Some(path) && one[0].start == pos.value;
    }
  }

  /** The byte lies in a match with the path. */
  ghost predicate InMatch(ms: seq<PiiMatch>, path: string, q: nat) {
    OverlapsOn(ms, path, q, q + 1)
  }

  ghost predicate InOccurrence(text: string, raw: string, q: nat) {
    exists pos: nat :: OccursAt(text, raw, pos) && pos <= q < pos + |raw|
  }

  /** The value occurs, and every byte of every occurrence lies in a match with the text's path. */
  ghost predicate Protected(text: string, path: string, raw: string, ms: seq<PiiMatch>) {
    && (exists pos: nat :: OccursAt(text, raw, pos))
    && (forall q: nat | InOccurrence(text, raw, q) :: InMatch(ms, path, q))
  }

  /** Some string with the path, in the walk it belongs to, puts a match over the byte. */
  ghost predicate ByteCovered(c: Scanner, json: Value, path: string, q: nat) {
    exists g: nat :: WalkCovers(c, WalkedWith(c, json, g), 0, path, q, q + 1)
  }

  /** The exact condition under which the scan of a body protects a value in a string, whatever the depth it
      was found at: it occurs there literally, and some string with its path puts a match over each byte of
      each occurrence. */
  lemma ScanProtectsIff(c: Scanner, json: Value, text: string, path: string, raw: string)
    ensures Protected(text, path, raw, Scanned(c, json))
            <==> && (exists pos: nat :: OccursAt(text, raw, pos))
                 && (forall q: nat | InOccurrence(text, raw, q) :: ByteCovered(c, json, path, q))
  {
    forall q: nat
      ensures InMatch(Scanned(c, json), path, q) <==> ByteCovered(c, json, path, q)
    {
      ScanCoversIff(c, json, path, q, q + 1);
    }
  }
}
