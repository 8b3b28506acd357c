/** When scanning the top-level entries in parallel reports what one recursive walk reports
    (hybrid_scanner.rs). */
module JsonParallel {
  import opened Text
  import opened Pii
  import opened Json
  import opened JsonScan
  import opened JsonMatches
  import opened Clustering

  /** None of the matches from position n on overlaps a match in pre, whatever their paths are. */
  ghost predicate Avoids(pre: seq<PiiMatch>, ms: seq<PiiMatch>, n: nat) {
    forall k | n <= k < |ms| :: !OverlapsAny(pre, ms[k].start, ms[k].end)
  }

  lemma RecoverShifts(s: string, path: string, m: PiiMatch, pre: seq<PiiMatch>, own: seq<PiiMatch>, all: seq<PiiMatch>)
    requires own + Recover(s, path, m, own) <= all && Avoids(pre, all, |own|)
    ensures Recover(s, path, m, pre + own) == Recover(s, path, m, own)
  {
    var one := Recover(s, path, m, own);
    match FindFrom(s, m.rawValue, 0)
    case None =>
    case Some(pos) =>
      OverlapsAnyConcat(pre, own, pos, pos + |m.rawValue|);
      if one != [] {
        assert all[|own|] == (own + one)[|own|] == one[0];
      }
  }

  lemma {:induction false} AvoidingShifts(s: string, path: string, inner: seq<PiiMatch>,
                                          pre: seq<PiiMatch>, own: seq<PiiMatch>)
    requires Avoids(pre, RecoverAll(s, path, inner, own), |own|)
    ensures RecoverAll(s, path, inner, pre + own) == pre + RecoverAll(s, path, inner, own)
    decreases |inner|
  {
    if inner != [] {
      var one := Recover(s, path, inner[0], own);
      var all := RecoverAll(s, path, inner[1..], own + one);
      RecoverAllAppends(s, path, inner[1..], own + one);
      RecoverShifts(s, path, inner[0], pre, own, all);
      AvoidingShifts(s, path, inner[1..], pre, own + one);
      assert pre + (own + one) == pre + own + one;
    }
  }

  lemma ShiftedAvoid(s: string, path: string, inner: seq<PiiMatch>, pre: seq<PiiMatch>, own: seq<PiiMatch>)
    requires RecoverAll(s, path, inner, pre + own) == pre + RecoverAll(s, path, inner, own)
    ensures Avoids(pre, RecoverAll(s, path, inner, own), |own|)
  {
    var ms, all := RecoverAll(s, path, inner, own), RecoverAll(s, path, inner, pre + own);
    RecoveredStandApart(s, path, inner, pre + own);
    forall k | |own| <= k < |ms|
      ensures !OverlapsAny(pre, ms[k].start, ms[k].end)
    {
      assert all[|pre| + k] == ms[k];
      forall j | 0 <= j < |pre|
        ensures !(ms[k].start < pre[j].end && ms[k].end > pre[j].start)
      {
        assert all[j] == pre[j] && !Overlap(all[j], all[|pre| + k]);
      }
    }
  }

  /** What a leaf's nested JSON adds on top of own does not overlap anything in pre. */
  ghost predicate ClearLeaf(c: Scanner, leaf: Leaf, own: seq<PiiMatch>, pre: seq<PiiMatch>) {
    Avoids(pre, ScanLeaf(c, leaf, 0, own), |own| + |c.scan(leaf.text)|)
  }

  lemma LeafShiftsIff(c: Scanner, leaf: Leaf, own: seq<PiiMatch>, pre: seq<PiiMatch>)
    ensures ScanLeaf(c, leaf, 0, pre + own) == pre + ScanLeaf(c, leaf, 0, own) <==> ClearLeaf(c, leaf, own, pre)
  {
    var path := leaf.path;
    var found, inner := WithPath(c.scan(leaf.text), path), Inner(c, leaf.text, 0);
    assert pre + own + found == pre + (own + found);
    if ClearLeaf(c, leaf, own, pre) {
      AvoidingShifts(leaf.text, path, inner, pre, own + found);
    }
    if ScanLeaf(c, leaf, 0, pre + own) == pre + ScanLeaf(c, leaf, 0, own) {
      ShiftedAvoid(leaf.text, path, inner, pre, own + found);
    }
  }

  // ---- Shifting a whole list of leaves ----

  /** Scanning the leaves from nothing, no nested JSON adds anything that overlaps a match in pre. */
  ghost predicate Clear(c: Scanner, leaves: seq<Leaf>, pre: seq<PiiMatch>) {
    forall n | 0 <= n < |leaves| :: ClearLeaf(c, leaves[n], Fold(c, leaves[..n], 0, []), pre)
  }

  lemma ClearSnoc(c: Scanner, front: seq<Leaf>, leaf: Leaf, pre: seq<PiiMatch>)
    ensures Clear(c, front + [leaf], pre) <==> Clear(c, front, pre) && ClearLeaf(c, leaf, Fold(c, front, 0, []), pre)
  {
    var all := front + [leaf];
    assert forall n | 0 <= n <= |front| :: all[..n] == front[..n];
    assert all[|front|] == leaf && front[..|front|] == front;
    forall n | 0 <= n < |front|
      ensures ClearLeaf(c, all[n], Fold(c, all[..n], 0, []), pre)
              <==> ClearLeaf(c, front[n], Fold(c, front[..n], 0, []), pre)
    {
      assert all[n] == front[n];
    }
  }

  /** That a clear list of leaves shifts. */
  lemma {:induction false} ClearShifts(c: Scanner, leaves: seq<Leaf>, pre: seq<PiiMatch>)
    requires Clear(c, leaves, pre)
    ensures Fold(c, leaves, 0, pre) == pre + Fold(c, leaves, 0, [])
    decreases |leaves|
  {
    if leaves == [] {
      assert pre + [] == pre;
    } else {
      var front, leaf := leaves[..|leaves| - 1], leaves[|leaves| - 1];
      assert front + [leaf] == leaves;
      ClearSnoc(c, front, leaf, pre);
      ClearShifts(c, front, pre);
      FoldSnoc(c, front, leaf, 0, pre);
      FoldSnoc(c, front, leaf, 0, []);
      LeafShiftsIff(c, leaf, Fold(c, front, 0, []), pre);
    }
  }

  // ---- A walk that has fallen behind never catches up ----

  /** Match j overlaps one before it. */
  ghost predicate Blocked(z: seq<PiiMatch>, j: nat)
    requires j < |z|
  {
    OverlapsAny(z[..j], z[j].start, z[j].end)
  }

  /** Two scans build the list z, one has w and the other a matches of it; whatever the first is behind
      by, it could not recover. */
  ghost predicate Lag(z: seq<PiiMatch>, w: nat, a: nat) {
    w <= a <= |z| && forall j | w <= j < a :: Blocked(z, j)
  }

  lemma OverlapsMore(a: seq<PiiMatch>, b: seq<PiiMatch>, start: nat, end: nat)
    requires a <= b && OverlapsAny(a, start, end)
    ensures OverlapsAny(b, start, end)
  {
    OverlapsAnyConcat(a, b[|a|..], start, end);
    assert a + b[|a|..] == b;
  }

  /** A match that overlaps what the first scan has is one it does not recover. */
  lemma FallsBehind(z: seq<PiiMatch>, w: nat, a: nat)
    requires Lag(z, w, a) && a < |z| && OverlapsAny(z[..w], z[a].start, z[a].end)
    ensures Lag(z, w, a + 1)
  {
    OverlapsMore(z[..w], z[..a], z[a].start, z[a].end);
  }

  lemma NeverCatchesUp(z: seq<PiiMatch>, w: nat, a: nat)
    requires Lag(z, w, a) && w < |z| && !OverlapsAny(z[..w], z[w].start, z[w].end)
    ensures w == a
  {
    assert w < a ==> Blocked(z, w);
  }

  lemma BothTake(z: seq<PiiMatch>, w: nat, a: nat)
    requires Lag(z, w, a) && a < |z| && z[w] == z[a]
    ensures Lag(z, w + 1, a + 1)
  {
    if w < a {
      assert Blocked(z, w);
      OverlapsMore(z[..w], z[..a], z[a].start, z[a].end);
    }
  }

  /** The list reads like found from a position on. */
  ghost predicate ReadsAt(z: seq<PiiMatch>, at: nat, found: seq<PiiMatch>) {
    at + |found| <= |z| && z[at..at + |found|] == found
  }

  lemma ReadsNext(z: seq<PiiMatch>, at: nat, found: seq<PiiMatch>)
    requires ReadsAt(z, at, found) && found != []
    ensures at < |z| && z[at] == found[0] && ReadsAt(z, at + 1, found[1..])
  {
    assert z[at..at + |found|][0] == z[at];
    assert z[at..at + |found|][1..] == z[at + 1..at + |found|];
  }

  lemma {:induction false} BothTakeAll(z: seq<PiiMatch>, w: nat, a: nat, found: seq<PiiMatch>)
    requires Lag(z, w, a) && ReadsAt(z, w, found) && ReadsAt(z, a, found)
    ensures Lag(z, w + |found|, a + |found|)
    decreases |found|
  {
    if found != [] {
      ReadsNext(z, w, found);
      ReadsNext(z, a, found);
      BothTake(z, w, a);
      BothTakeAll(z, w + 1, a + 1, found[1..]);
    }
  }

  /** One scan has x, the other y, of which it looks at own alone; both are on the way to z. */
  ghost predicate Behind(z: seq<PiiMatch>, x: seq<PiiMatch>, y: seq<PiiMatch>) {
    x <= z && y <= z && Lag(z, |x|, |y|)
  }

  lemma OfferBehind(z: seq<PiiMatch>, x: seq<PiiMatch>, y: seq<PiiMatch>, r: PiiMatch, rejected: bool)
    requires Behind(z, x, y)
    requires rejected ==> OverlapsAny(y, r.start, r.end)
    requires !OverlapsAny(x, r.start, r.end) ==> x + [r] <= z
    requires !rejected ==> y + [r] <= z
    ensures OverlapsAny(x, r.start, r.end) && rejected ==> Behind(z, x + [], y + [])
    ensures OverlapsAny(x, r.start, r.end) && !rejected ==> Behind(z, x + [], y + [r])
    ensures !OverlapsAny(x, r.start, r.end) ==> !rejected && Behind(z, x + [r], y + [r])
  {
    assert x + [] == x && y + [] == y && z[..|x|] == x;
    if !rejected {
      assert z[|y|] == (y + [r])[|y|] == r;
    }
    if !OverlapsAny(x, r.start, r.end) {
      assert z[|x|] == (x + [r])[|x|] == r;
      NeverCatchesUp(z, |x|, |y|);
      assert x == y;
    } else if !rejected {
      FallsBehind(z, |x|, |y|);
    }
  }

  lemma RecoverBehind(s: string, path: string, m: PiiMatch, z: seq<PiiMatch>,
                      x: seq<PiiMatch>, pre: seq<PiiMatch>, own: seq<PiiMatch>)
    requires Behind(z, x, pre + own)
    requires x + Recover(s, path, m, x) <= z && pre + own + Recover(s, path, m, own) <= z
    ensures Behind(z, x + Recover(s, path, m, x), pre + own + Recover(s, path, m, own))
    ensures |Recover(s, path, m, x)| <= |Recover(s, path, m, own)|
  {
    var y := pre + own;
    match FindFrom(s, m.rawValue, 0)
    case None =>
      assert x + [] == x && y + [] == y;
    case Some(pos) =>
      var r := m.(start := pos, end := pos + |m.rawValue|, jsonPath := Some(path));
      OverlapsAnyConcat(pre, own, r.start, r.end);
      OfferBehind(z, x, y, r, OverlapsAny(own, r.start, r.end));
  }

  lemma PrefixBehind(pre: seq<PiiMatch>, a: seq<PiiMatch>, b: seq<PiiMatch>)
    requires a <= b
    ensures pre + a <= pre + b
  {
  }

  lemma {:induction false} RecoverAllBehind(s: string, path: string, inner: seq<PiiMatch>, z: seq<PiiMatch>,
                                            x: seq<PiiMatch>, pre: seq<PiiMatch>, own: seq<PiiMatch>)
    requires Behind(z, x, pre + own)
    requires RecoverAll(s, path, inner, x) <= z && pre + RecoverAll(s, path, inner, own) <= z
    ensures Behind(z, RecoverAll(s, path, inner, x), pre + RecoverAll(s, path, inner, own))
    ensures |RecoverAll(s, path, inner, x)| - |x| <= |RecoverAll(s, path, inner, own)| - |own|
    decreases |inner|
  {
    if inner != [] {
      var nextX, nextOwn := x + Recover(s, path, inner[0], x), own + Recover(s, path, inner[0], own);
      RecoverAllAppends(s, path, inner[1..], nextX);
      RecoverAllAppends(s, path, inner[1..], nextOwn);
      PrefixBehind(pre, nextOwn, RecoverAll(s, path, inner[1..], nextOwn));
      assert pre + nextOwn == pre + own + Recover(s, path, inner[0], own);
      RecoverBehind(s, path, inner[0], z, x, pre, own);
      RecoverAllBehind(s, path, inner[1..], z, nextX, pre, nextOwn);
    }
  }

  lemma ReadsThere(z: seq<PiiMatch>, x: seq<PiiMatch>, found: seq<PiiMatch>)
    requires x + found <= z
    ensures ReadsAt(z, |x|, found)
  {
    assert z[..|x + found|] == x + found;
    assert z[|x|..|x| + |found|] == z[..|x + found|][|x|..];
  }

  lemma TakeBehind(z: seq<PiiMatch>, x: seq<PiiMatch>, y: seq<PiiMatch>, found: seq<PiiMatch>)
    requires Behind(z, x, y) && x + found <= z && y + found <= z
    ensures Behind(z, x + found, y + found)
  {
    ReadsThere(z, x, found);
    ReadsThere(z, y, found);
    BothTakeAll(z, |x|, |y|, found);
  }

  lemma TakeBehindOwn(z: seq<PiiMatch>, x: seq<PiiMatch>, pre: seq<PiiMatch>, own: seq<PiiMatch>, found: seq<PiiMatch>,
                      xs: seq<PiiMatch>, owns: seq<PiiMatch>)
    requires Behind(z, x, pre + own) && x + found <= xs <= z && own + found <= owns && pre + owns <= z
    ensures Behind(z, x + found, pre + (own + found))
  {
    PrefixBehind(pre, own + found, owns);
    assert pre + (own + found) == pre + own + found;
    TakeBehind(z, x, pre + own, found);
  }

  lemma ScanBehind(s: string, path: string, found: seq<PiiMatch>, inner: seq<PiiMatch>, z: seq<PiiMatch>,
                   x: seq<PiiMatch>, pre: seq<PiiMatch>, own: seq<PiiMatch>)
    requires Behind(z, x, pre + own)
    requires RecoverAll(s, path, inner, x + found) <= z && pre + RecoverAll(s, path, inner, own + found) <= z
    ensures Behind(z, RecoverAll(s, path, inner, x + found), pre + RecoverAll(s, path, inner, own + found))
    ensures |RecoverAll(s, path, inner, x + found)| - |x| <= |RecoverAll(s, path, inner, own + found)| - |own|
  {
    RecoverAllAppends(s, path, inner, x + found);
    RecoverAllAppends(s, path, inner, own + found);
    var xs, owns := RecoverAll(s, path, inner, x + found), RecoverAll(s, path, inner, own + found);
    TakeBehindOwn(z, x, pre, own, found, xs, owns);
    RecoverAllBehind(s, path, inner, z, x + found, pre, own + found);
  }

  lemma LeafBehind(c: Scanner, leaf: Leaf, z: seq<PiiMatch>, x: seq<PiiMatch>, pre: seq<PiiMatch>, own: seq<PiiMatch>)
    requires Behind(z, x, pre + own)
    requires ScanLeaf(c, leaf, 0, x) <= z && pre + ScanLeaf(c, leaf, 0, own) <= z
    ensures Behind(z, ScanLeaf(c, leaf, 0, x), pre + ScanLeaf(c, leaf, 0, own))
    ensures |ScanLeaf(c, leaf, 0, x)| - |x| <= |ScanLeaf(c, leaf, 0, own)| - |own|
  {
    ScanBehind(leaf.text, leaf.path, WithPath(c.scan(leaf.text), leaf.path), Inner(c, leaf.text, 0), z, x, pre, own);
  }

  lemma {:induction false} FoldBehind(c: Scanner, leaves: seq<Leaf>, z: seq<PiiMatch>, x: seq<PiiMatch>,
                                      pre: seq<PiiMatch>)
    requires Behind(z, x, pre)
    requires Fold(c, leaves, 0, x) <= z && pre + Fold(c, leaves, 0, []) <= z
    ensures Behind(z, Fold(c, leaves, 0, x), pre + Fold(c, leaves, 0, []))
    ensures |Fold(c, leaves, 0, x)| - |x| <= |Fold(c, leaves, 0, [])|
    decreases |leaves|
  {
    if leaves == [] {
      assert pre + [] == pre;
    } else {
      var front, leaf := leaves[..|leaves| - 1], leaves[|leaves| - 1];
      var walked, own := Fold(c, front, 0, x), Fold(c, front, 0, []);
      ScanLeafAppends(c, leaf, 0, walked);
      ScanLeafAppends(c, leaf, 0, own);
      PrefixBehind(pre, own, ScanLeaf(c, leaf, 0, own));
      FoldBehind(c, front, z, x, pre);
      LeafBehind(c, leaf, z, walked, pre, own);
    }
  }

  /** Ending up level means having been level before the last leaf. */
  lemma LevelBeforeLeaf(c: Scanner, front: seq<Leaf>, leaf: Leaf, pre: seq<PiiMatch>)
    requires Fold(c, front + [leaf], 0, pre) == pre + Fold(c, front + [leaf], 0, [])
    ensures Fold(c, front, 0, pre) == pre + Fold(c, front, 0, [])
    ensures ScanLeaf(c, leaf, 0, pre + Fold(c, front, 0, [])) == pre + ScanLeaf(c, leaf, 0, Fold(c, front, 0, []))
  {
    var walked, own := Fold(c, front, 0, pre), Fold(c, front, 0, []);
    var z := pre + Fold(c, front + [leaf], 0, []);
    FoldSnoc(c, front, leaf, 0, pre);
    FoldSnoc(c, front, leaf, 0, []);
    ScanLeafAppends(c, leaf, 0, walked);
    ScanLeafAppends(c, leaf, 0, own);
    PrefixBehind(pre, own, ScanLeaf(c, leaf, 0, own));
    FoldBehind(c, front, z, pre, pre);
    LeafBehind(c, leaf, z, walked, pre, own);
  }

  /** Scanning on top of other entries' matches adds what scanning from nothing finds, exactly if
      nothing recovered from nested JSON overlaps, number for number, one of those matches. */
  lemma {:induction false} FoldShiftsIff(c: Scanner, leaves: seq<Leaf>, pre: seq<PiiMatch>)
    ensures Fold(c, leaves, 0, pre) == pre + Fold(c, leaves, 0, []) <==> Clear(c, leaves, pre)
    decreases |leaves|
  {
    if Clear(c, leaves, pre) {
      ClearShifts(c, leaves, pre);
    } else if leaves != [] && Fold(c, leaves, 0, pre) == pre + Fold(c, leaves, 0, []) {
      var front, leaf := leaves[..|leaves| - 1], leaves[|leaves| - 1];
      assert front + [leaf] == leaves;
      LevelBeforeLeaf(c, front, leaf, pre);
      FoldShiftsIff(c, front, pre);
      LeafShiftsIff(c, leaf, Fold(c, front, 0, []), pre);
      ClearSnoc(c, front, leaf, pre);
    }
  }

  // ---- One entry after the other ----

  /** Nothing recovered from nested JSON under the i-th child overlaps a match of an earlier child. */
  ghost predicate EntryClear(c: Scanner, v: Value, i: nat)
    requires i < Arity(v)
  {
    Clear(c, LeavesAt(c.skip, v, [], i), Spread(c, EntriesTo(c.skip, v, i)))
  }

  lemma {:induction false} GroupsBehind(c: Scanner, joined: nat -> seq<Leaf>, group: nat -> seq<Leaf>,
                                        spread: nat -> seq<PiiMatch>, n: nat, z: seq<PiiMatch>)
    requires Grouped(c, joined, group, spread, n) && spread(n) <= z && Fold(c, joined(n), 0, []) <= z
    ensures Behind(z, Fold(c, joined(n), 0, []), spread(n))
  {
    if n > 0 {
      var k: nat := n - 1;
      var walked, own := Fold(c, joined(k), 0, []), Fold(c, group(k), 0, []);
      assert joined(k + 1) == joined(k) + group(k) && spread(k + 1) == spread(k) + own;
      FoldConcat(c, joined(k), group(k), 0, []);
      FoldAppends(c, group(k), walked);
      GroupsBehind(c, joined, group, spread, k, z);
      FoldBehind(c, group(k), z, walked, spread(k));
    }
  }

  /** The lists agree after one more entry exactly if they did before, and the entry is clear. */
  lemma GroupStep(c: Scanner, joined: nat -> seq<Leaf>, group: nat -> seq<Leaf>, spread: nat -> seq<PiiMatch>, n: nat)
    requires Grouped(c, joined, group, spread, n + 1)
    ensures spread(n + 1) == Fold(c, joined(n + 1), 0, [])
            <==> spread(n) == Fold(c, joined(n), 0, []) && Clear(c, group(n), spread(n))
  {
    var walked, own, z := Fold(c, joined(n), 0, []), Fold(c, group(n), 0, []), spread(n + 1);
    assert joined(n + 1) == joined(n) + group(n) && z == spread(n) + own;
    FoldConcat(c, joined(n), group(n), 0, []);
    FoldShiftsIff(c, group(n), spread(n));
    if z == Fold(c, joined(n + 1), 0, []) {
      FoldAppends(c, group(n), walked);
      GroupsBehind(c, joined, group, spread, n, z);
      FoldBehind(c, group(n), z, walked, spread(n));
      assert walked == z[..|walked|] == spread(n);
    }
  }

  lemma {:induction false} EveryStep(agree: nat -> bool, clear: nat -> bool, n: nat)
    requires agree(0) && forall k: nat | k < n :: agree(k + 1) <==> agree(k) && clear(k)
    ensures agree(n) <==> forall i: nat | i < n :: clear(i)
  {
    if n > 0 {
      EveryStep(agree, clear, n - 1);
      assert agree(n - 1 + 1) <==> agree(n - 1) && clear(n - 1);
    }
  }

  lemma GroupsAgreeIff(c: Scanner, joined: nat -> seq<Leaf>, group: nat -> seq<Leaf>,
                       spread: nat -> seq<PiiMatch>, n: nat)
    requires Grouped(c, joined, group, spread, n)
    ensures spread(n) == Fold(c, joined(n), 0, []) <==> forall i: nat | i < n :: Clear(c, group(i), spread(i))
  {
    var agree := (k: nat) => spread(k) == Fold(c, joined(k), 0, []);
    var clear := (k: nat) => Clear(c, group(k), spread(k));
    forall k: nat | k < n
      ensures agree(k + 1) <==> agree(k) && clear(k)
    {
      GroupStep(c, joined, group, spread, k);
    }
    EveryStep(agree, clear, n);
    assert forall i: nat | i < n :: clear(i) <==> Clear(c, group(i), spread(i));
  }

  lemma SpreadAgreesIff(c: Scanner, v: Value)
    ensures Spread(c, EntriesTo(c.skip, v, Arity(v))) == Fold(c, LeavesTo(c.skip, v, [], Arity(v)), 0, [])
            <==> forall i | 0 <= i < Arity(v) :: EntryClear(c, v, i)
  {
    var n := Arity(v);
    var joined := (k: nat) => if k <= n then LeavesTo(c.skip, v, [], k) else [];
    var group := (k: nat) => if k < n then LeavesAt(c.skip, v, [], k) else [];
    var spread := (k: nat) => if k <= n then Spread(c, EntriesTo(c.skip, v, k)) else [];
    EntriesAreGrouped(c, v, joined, group, spread, n);
    GroupsAgreeIff(c, joined, group, spread, n);
    forall i: nat | i < n
      ensures EntryClear(c, v, i) <==> Clear(c, group(i), spread(i))
    {
    }
  }

  /** Scanning the entries in parallel reports the same matches in the same order as one walk, exactly if
      no match recovered from JSON nested in a string overlaps, number for number, a match under an
      earlier entry. */
  lemma ParallelAgreesIff(c: Scanner, json: Value)
    requires json.Arr? || json.Obj?
    ensures Spread(c, Entries(c.skip, json)) == Fold(c, Leaves(c.skip, json, []), 0, [])
            <==> forall i | 0 <= i < Arity(json) :: EntryClear(c, json, i)
  {
    SpreadAgreesIff(c, json);
  }

  /** No string leaf parses as nested JSON. */
  ghost predicate NoNested(c: Scanner, leaves: seq<Leaf>) {
    forall k | 0 <= k < |leaves| :: NestedValue(c, leaves[k].text).None?
  }

  lemma NoNestedIsClear(c: Scanner, leaves: seq<Leaf>, pre: seq<PiiMatch>)
    requires NoNested(c, leaves)
    ensures Clear(c, leaves, pre)
  {
    forall n | 0 <= n < |leaves|
      ensures ClearLeaf(c, leaves[n], Fold(c, leaves[..n], 0, []), pre)
    {
      assert NestedValue(c, leaves[n].text).None?;
      assert Inner(c, leaves[n].text, 0) == [];
    }
  }

  lemma NoNestedParts(c: Scanner, a: seq<Leaf>, b: seq<Leaf>)
    requires NoNested(c, a + b)
    ensures NoNested(c, a) && NoNested(c, b)
  {
    assert forall k | 0 <= k < |a| :: (a + b)[k] == a[k];
    assert forall k | 0 <= k < |b| :: (a + b)[|a| + k] == b[k];
  }

  lemma {:induction false} NoNestedAt(c: Scanner, v: Value, n: nat, i: nat)
    requires i < n <= Arity(v) && NoNested(c, LeavesTo(c.skip, v, [], n))
    ensures NoNested(c, LeavesAt(c.skip, v, [], i))
    decreases n
  {
    NoNestedParts(c, LeavesTo(c.skip, v, [], n - 1), LeavesAt(c.skip, v, [], n - 1));
    if i < n - 1 {
      NoNestedAt(c, v, n - 1, i);
    }
  }

  /** The dispatch to threads never shows when no string leaf holds JSON. */
  lemma ParallelAgreesWithoutNesting(c: Scanner, json: Value)
    requires NoNested(c, Leaves(c.skip, json, []))
    ensures Scanned(c, json) == Fold(c, Leaves(c.skip, json, []), 0, [])
  {
    if json.Arr? || json.Obj? {
      forall i | 0 <= i < Arity(json)
        ensures EntryClear(c, json, i)
      {
        NoNestedAt(c, json, Arity(json), i);
        NoNestedIsClear(c, LeavesAt(c.skip, json, [], i), Spread(c, EntriesTo(c.skip, json, i)));
      }
      ParallelAgreesIff(c, json);
    }
  }
}
