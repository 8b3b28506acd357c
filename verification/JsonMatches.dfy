/** What the JSON scan reports: every match is placed in the string its path leads to, and matches
    with one path never overlap (hybrid_scanner.rs). */
module JsonMatches {
  import opened Text
  import opened Utf8
  import opened Pii
  import opened Json
  import opened JsonScan
  import opened Clustering
  import opened TextScan

  // ---- The strings of a tree ----

  /** Every string of the tree is well-formed UTF-8. */
  ghost predicate ValidTree(v: Value) {
    match v
    case Str(s) => Valid(s)
    case Arr(elems) => forall i | 0 <= i < |elems| :: ValidTree(elems[i])
    case Obj(fields) => forall i | 0 <= i < |fields| :: ValidTree(fields[i].value)
    case _ => true
  }

  /** The scanner keeps what the text scan, str::trim and the JSON parser promise. */
  ghost predicate LawfulScanner(c: Scanner) {
    && (forall s {:trigger c.scan(s)} | Valid(s) :: ResultsOk(s, c.scan(s)))
    && (forall s {:trigger c.trim(s)} | Valid(s) :: Valid(c.trim(s)))
    && (forall s {:trigger c.parse(s)} | Valid(s) && c.parse(s).Some? :: ValidTree(c.parse(s).value))
  }

  ghost predicate ValidLeaves(leaves: seq<Leaf>) {
    forall k | 0 <= k < |leaves| :: Valid(leaves[k].text)
  }

  lemma {:induction false} LeavesToAreValid(skip: seq<string>, v: Value, base: Place, n: nat)
    requires ValidTree(v) && n <= Arity(v)
    ensures ValidLeaves(LeavesTo(skip, v, base, n))
    decreases v, n
  {
    if n > 0 {
      LeavesToAreValid(skip, v, base, n - 1);
      LeavesAreValid(skip, ChildAt(v, n - 1), base + [SegmentAt(v, n - 1)]);
    }
  }

  lemma {:induction false} LeavesAreValid(skip: seq<string>, v: Value, base: Place)
    requires ValidTree(v)
    ensures ValidLeaves(Leaves(skip, v, base))
    decreases v, Arity(v) + 1
  {
    if v.Arr? || v.Obj? {
      LeavesToAreValid(skip, v, base, Arity(v));
    }
  }

  /** The leaf is a string of the tree v at base, and its place leads to it. */
  ghost predicate LeafOf(v: Value, base: Place, leaf: Leaf) {
    && |base| <= |leaf.place| && leaf.place[..|base|] == base
    && leaf.path == Print(leaf.place)
    && Locate(v, leaf.place[|base|..]) == Some(Str(leaf.text))
  }

  ghost predicate LeavesOf(v: Value, base: Place, leaves: seq<Leaf>) {
    forall k | 0 <= k < |leaves| :: LeafOf(v, base, leaves[k])
  }

  ghost predicate PlacesDiffer(leaves: seq<Leaf>) {
    forall a, b | 0 <= a < b < |leaves| :: leaves[a].place != leaves[b].place
  }

  lemma ChildAtSegment(v: Value, i: nat)
    requires DistinctTree(v) && i < Arity(v)
    ensures Child(v, SegmentAt(v, i)) == Some(ChildAt(v, i))
    ensures DistinctTree(ChildAt(v, i))
  {
    if v.Obj? {
      FieldIndexOfDistinct(v.fields, i);
    }
  }

  lemma LeafOfChild(v: Value, base: Place, i: nat, leaf: Leaf)
    requires DistinctTree(v) && i < Arity(v) && LeafOf(ChildAt(v, i), base + [SegmentAt(v, i)], leaf)
    ensures LeafOf(v, base, leaf) && |leaf.place| > |base| && leaf.place[|base|] == SegmentAt(v, i)
  {
    var seg := SegmentAt(v, i);
    ChildAtSegment(v, i);
    var rest := leaf.place[|base|..];
    assert leaf.place[..|base| + 1] == base + [seg];
    assert leaf.place[|base|] == (base + [seg])[|base|] == seg;
    assert leaf.place[..|base|] == (base + [seg])[..|base|] == base;
    assert rest[0] == seg && rest[1..] == leaf.place[|base| + 1..];
  }

  lemma SegmentsDiffer(v: Value, i: nat, j: nat)
    requires DistinctTree(v) && i < j < Arity(v)
    ensures SegmentAt(v, i) != SegmentAt(v, j)
  {
  }

  ghost predicate SegmentBefore(v: Value, n: nat, seg: Segment)
    requires n <= Arity(v)
  {
    exists i :: 0 <= i < n && seg == SegmentAt(v, i)
  }

  /** The leaves under the first n children start with the segment of one of them. */
  ghost predicate UnderFirst(v: Value, base: Place, n: nat, leaves: seq<Leaf>)
    requires n <= Arity(v)
  {
    forall k | 0 <= k < |leaves| :: |leaves[k].place| > |base| && SegmentBefore(v, n, leaves[k].place[|base|])
  }

  /** The leaves under one child all start with its segment. */
  ghost predicate UnderChild(v: Value, base: Place, i: nat, leaves: seq<Leaf>)
    requires i < Arity(v)
  {
    forall k | 0 <= k < |leaves| :: |leaves[k].place| > |base| && leaves[k].place[|base|] == SegmentAt(v, i)
  }

  lemma LeavesJoin(v: Value, base: Place, n: nat, a: seq<Leaf>, b: seq<Leaf>)
    requires DistinctTree(v) && n < Arity(v)
    requires LeavesOf(v, base, a) && PlacesDiffer(a) && UnderFirst(v, base, n, a)
    requires LeavesOf(v, base, b) && PlacesDiffer(b) && UnderChild(v, base, n, b)
    ensures LeavesOf(v, base, a + b) && PlacesDiffer(a + b) && UnderFirst(v, base, n + 1, a + b)
  {
    forall j, k | 0 <= j < |a| && 0 <= k < |b|
      ensures a[j].place != b[k].place
    {
      assert SegmentBefore(v, n, a[j].place[|base|]);
      var i :| 0 <= i < n && a[j].place[|base|] == SegmentAt(v, i);
      SegmentsDiffer(v, i, n);
    }
    forall k | 0 <= k < |a + b|
      ensures |(a + b)[k].place| > |base| && SegmentBefore(v, n + 1, (a + b)[k].place[|base|])
    {
      if k < |a| {
        var i :| 0 <= i < n && a[k].place[|base|] == SegmentAt(v, i);
      } else {
        assert (a + b)[k] == b[k - |a|];
      }
    }
  }

  ghost predicate GroupOf(v: Value, base: Place, i: nat, ls: seq<Leaf>)
    requires i < Arity(v)
  {
    LeavesOf(v, base, ls) && PlacesDiffer(ls) && UnderChild(v, base, i, ls)
  }

  lemma {:induction false} GroupsJoin(v: Value, base: Place, joined: nat -> seq<Leaf>, group: nat -> seq<Leaf>, n: nat)
    requires DistinctTree(v) && n <= Arity(v) && joined(0) == []
    requires forall i: nat | i < n :: joined(i + 1) == joined(i) + group(i) && GroupOf(v, base, i, group(i))
    ensures LeavesOf(v, base, joined(n)) && PlacesDiffer(joined(n)) && UnderFirst(v, base, n, joined(n))
  {
    if n > 0 {
      GroupsJoin(v, base, joined, group, n - 1);
      assert joined(n - 1 + 1) == joined(n - 1) + group(n - 1);
      LeavesJoin(v, base, n - 1, joined(n - 1), group(n - 1));
    }
  }

  lemma LeavesToAreJoined(skip: seq<string>, v: Value, base: Place, joined: nat -> seq<Leaf>, group: nat -> seq<Leaf>)
    requires forall k: nat | k <= Arity(v) :: joined(k) == LeavesTo(skip, v, base, k)
    requires forall k: nat | k < Arity(v) :: group(k) == LeavesAt(skip, v, base, k)
    ensures joined(0) == [] && forall k: nat | k < Arity(v) :: joined(k + 1) == joined(k) + group(k)
  {
  }

  /** The leaves of a tree lie at different places, and each place leads to its string. */
  lemma {:induction false} LeavesAreOf(skip: seq<string>, v: Value, base: Place)
    requires DistinctTree(v)
    ensures LeavesOf(v, base, Leaves(skip, v, base)) && PlacesDiffer(Leaves(skip, v, base))
    decreases v, 1
  {
    if v.Arr? || v.Obj? {
      var n := Arity(v);
      var joined := (k: nat) => if k <= n then LeavesTo(skip, v, base, k) else [];
      var group := (k: nat) => if k < n then LeavesAt(skip, v, base, k) else [];
      LeavesToAreJoined(skip, v, base, joined, group);
      forall i: nat | i < n
        ensures GroupOf(v, base, i, group(i))
      {
        LeavesAtAreOf(skip, v, base, i, group(i));
      }
      GroupsJoin(v, base, joined, group, n);
    } else {
      assert base[|base|..] == [];
    }
  }

  lemma {:induction false} LeavesAtAreOf(skip: seq<string>, v: Value, base: Place, i: nat, ls: seq<Leaf>)
    requires DistinctTree(v) && i < Arity(v) && ls == LeavesAt(skip, v, base, i)
    ensures GroupOf(v, base, i, ls)
    decreases v, 0
  {
    if !Skipped(skip, v, i) {
      var child, seg := ChildAt(v, i), SegmentAt(v, i);
      ChildAtSegment(v, i);
      LeavesAreOf(skip, child, base + [seg]);
      forall k | 0 <= k < |ls|
        ensures LeafOf(v, base, ls[k]) && |ls[k].place| > |base| && ls[k].place[|base|] == seg
      {
        LeafOfChild(v, base, i, ls[k]);
      }
    }
  }

  // ---- What one leaf adds ----

  lemma {:induction false} RecoverAllAppends(s: string, path: string, inner: seq<PiiMatch>, acc: seq<PiiMatch>)
    ensures acc <= RecoverAll(s, path, inner, acc)
    decreases |inner|
  {
    if inner != [] {
      RecoverAllAppends(s, path, inner[1..], acc + Recover(s, path, inner[0], acc));
    }
  }

  /** From position n on, nothing overlaps anything before it. */
  ghost predicate StandApart(ms: seq<PiiMatch>, n: nat) {
    forall j, k | 0 <= j < k < |ms| && n <= k :: !Overlap(ms[j], ms[k])
  }

  lemma RecoverOneApart(s: string, path: string, m: PiiMatch, acc: seq<PiiMatch>, all: seq<PiiMatch>)
    requires |Recover(s, path, m, acc)| == 1 && acc + Recover(s, path, m, acc) <= all
    requires StandApart(all, |acc| + 1)
    ensures StandApart(all, |acc|)
  {
    var r := Recover(s, path, m, acc)[0];
    assert all[|acc|] == (acc + [r])[|acc|] == r;
    forall j | 0 <= j < |acc|
      ensures !Overlap(all[j], all[|acc|])
    {
      assert all[j] == (acc + [r])[j] == acc[j];
      assert !OverlapsAny(acc, r.start, r.end);
    }
  }

  lemma {:induction false} RecoveredStandApart(s: string, path: string, inner: seq<PiiMatch>, acc: seq<PiiMatch>)
    ensures StandApart(RecoverAll(s, path, inner, acc), |acc|)
    decreases |inner|
  {
    if inner != [] {
      var one := Recover(s, path, inner[0], acc);
      RecoveredStandApart(s, path, inner[1..], acc + one);
      RecoverAllAppends(s, path, inner[1..], acc + one);
      if one != [] {
        RecoverOneApart(s, path, inner[0], acc, RecoverAll(s, path, inner[1..], acc + one));
      }
    }
  }

  /** The match is placed in a text and carries its path. */
  ghost predicate Reported(text: string, path: string, m: PiiMatch) {
    m.jsonPath == Some(path) && Placed(text, m)
  }

  ghost predicate AllReported(text: string, path: string, ms: seq<PiiMatch>, from: nat) {
    forall k | from <= k < |ms| :: Reported(text, path, ms[k])
  }

  /** Values found in nested JSON are non-empty valid texts. */
  ghost predicate SoundValues(ms: seq<PiiMatch>) {
    forall k | 0 <= k < |ms| :: ms[k].rawValue != "" && Valid(ms[k].rawValue)
  }

  lemma {:induction false} ValidRest(a: string, b: string)
    requires Valid(a) && Valid(a + b)
    ensures Valid(b)
  {
    if a == [] {
      assert a + b == b;
    } else {
      var n := FirstLength(a);
      FirstLengthOfPrefix(a, b);
      assert (a + b)[n..] == a[n..] + b;
      ValidRest(a[n..], b);
    }
  }

  lemma ValidStartsClean(t: string)
    requires Valid(t) && t != ""
    ensures !Continuation(t[0])
  {
  }

  /** A valid non-empty text occurs in a valid text only between character boundaries. */
  lemma OccurrenceIsBounded(s: string, pos: nat, raw: string)
    requires Valid(s) && Valid(raw) && raw != "" && pos + |raw| <= |s| && s[pos..pos + |raw|] == raw
    ensures Boundary(s, pos) && Boundary(s, pos + |raw|)
  {
    ValidStartsClean(raw);
    assert s[pos] == raw[0];
    ValidSplit(s, pos);
    var rest := s[pos + |raw|..];
    assert s[pos..] == raw + rest;
    ValidRest(raw, rest);
    if rest != "" {
      ValidStartsClean(rest);
    }
  }

  lemma BoundedIsReported(s: string, path: string, m: PiiMatch, pos: nat, r: PiiMatch)
    requires m.rawValue != "" && pos + |m.rawValue| <= |s| && s[pos..pos + |m.rawValue|] == m.rawValue
    requires Boundary(s, pos) && Boundary(s, pos + |m.rawValue|)
    requires r == m.(start := pos, end := pos + |m.rawValue|, jsonPath := Some(path))
    ensures Reported(s, path, r)
  {
  }

  /** Wherever raw occurs in s, it does so between character boundaries. */
  ghost predicate OccursClean(s: string, raw: string) {
    forall pos: nat | pos + |raw| <= |s| && s[pos..pos + |raw|] == raw :: Boundary(s, pos) && Boundary(s, pos + |raw|)
  }

  lemma ValidOccursClean(s: string, raw: string)
    requires Valid(s) && Valid(raw) && raw != ""
    ensures OccursClean(s, raw)
  {
    forall pos: nat | pos + |raw| <= |s| && s[pos..pos + |raw|] == raw
      ensures Boundary(s, pos) && Boundary(s, pos + |raw|)
    {
      OccurrenceIsBounded(s, pos, raw);
    }
  }

  lemma RecoverIsReported(s: string, path: string, m: PiiMatch, acc: seq<PiiMatch>)
    requires OccursClean(s, m.rawValue) && m.rawValue != ""
    ensures AllReported(s, path, Recover(s, path, m, acc), 0)
  {
    match FindFrom(s, m.rawValue, 0)
    case None =>
    case Some(pos) =>
      BoundedIsReported(s, path, m, pos, m.(start := pos, end := pos + |m.rawValue|, jsonPath := Some(path)));
  }

  lemma {:induction false} RecoveredAreReported(s: string, path: string, inner: seq<PiiMatch>, acc: seq<PiiMatch>, n: nat)
    requires Valid(s) && SoundValues(inner) && n <= |acc| && AllReported(s, path, acc, n)
    ensures AllReported(s, path, RecoverAll(s, path, inner, acc), n)
    decreases |inner|
  {
    if inner != [] {
      var one := Recover(s, path, inner[0], acc);
      ValidOccursClean(s, inner[0].rawValue);
      RecoverIsReported(s, path, inner[0], acc);
      forall k | n <= k < |acc + one|
        ensures Reported(s, path, (acc + one)[k])
      {
        if k >= |acc| {
          assert (acc + one)[k] == one[k - |acc|];
        }
      }
      RecoveredAreReported(s, path, inner[1..], acc + one, n);
    }
  }

  lemma WithPathReported(s: string, path: string, found: seq<PiiMatch>)
    requires ResultsOk(s, found)
    ensures AllReported(s, path, WithPath(found, path), 0)
  {
    forall k | 0 <= k < |found|
      ensures Reported(s, path, WithPath(found, path)[k])
    {
      assert found[k] in found;
    }
  }

  lemma AllReportedConcat(s: string, path: string, acc: seq<PiiMatch>, more: seq<PiiMatch>)
    requires AllReported(s, path, more, 0)
    ensures AllReported(s, path, acc + more, |acc|)
  {
    forall k | |acc| <= k < |acc + more|
      ensures Reported(s, path, (acc + more)[k])
    {
      assert (acc + more)[k] == more[k - |acc|];
    }
  }

  lemma ScanLeafAppends(c: Scanner, leaf: Leaf, depth: nat, acc: seq<PiiMatch>)
    requires depth <= MAX_NESTED_JSON_DEPTH
    ensures acc + WithPath(c.scan(leaf.text), leaf.path) <= ScanLeaf(c, leaf, depth, acc)
    ensures acc <= ScanLeaf(c, leaf, depth, acc)
  {
    var path := leaf.path;
    RecoverAllAppends(leaf.text, path, Inner(c, leaf.text, depth), acc + WithPath(c.scan(leaf.text), path));
  }

  lemma ScanLeafReported(c: Scanner, leaf: Leaf, depth: nat, acc: seq<PiiMatch>)
    requires depth <= MAX_NESTED_JSON_DEPTH && LawfulScanner(c) && Valid(leaf.text)
    requires SoundValues(Inner(c, leaf.text, depth))
    ensures AllReported(leaf.text, leaf.path, ScanLeaf(c, leaf, depth, acc), |acc|)
  {
    var path, found := leaf.path, WithPath(c.scan(leaf.text), leaf.path);
    WithPathReported(leaf.text, path, c.scan(leaf.text));
    AllReportedConcat(leaf.text, path, acc, found);
    RecoveredAreReported(leaf.text, path, Inner(c, leaf.text, depth), acc + found, |acc|);
  }

  /** The matches from position n on do not overlap each other. */
  ghost predicate ApartFrom(ms: seq<PiiMatch>, n: nat) {
    forall j, k | n <= j < k < |ms| :: !Overlap(ms[j], ms[k])
  }

  lemma ScanLeafApart(c: Scanner, leaf: Leaf, depth: nat, acc: seq<PiiMatch>)
    requires depth <= MAX_NESTED_JSON_DEPTH && ResultsOk(leaf.text, c.scan(leaf.text))
    ensures ApartFrom(ScanLeaf(c, leaf, depth, acc), |acc|)
  {
    var path, raw := leaf.path, c.scan(leaf.text);
    var start := acc + WithPath(raw, path);
    var all := ScanLeaf(c, leaf, depth, acc);
    RecoveredStandApart(leaf.text, path, Inner(c, leaf.text, depth), start);
    ScanLeafAppends(c, leaf, depth, acc);
    forall j, k | |acc| <= j < k < |all|
      ensures !Overlap(all[j], all[k])
    {
      if k < |start| {
        assert all[j] == start[j] && all[k] == start[k];
        assert raw[j - |acc|].end <= raw[k - |acc|].start;
      }
    }
  }

  // ---- What a list of leaves adds ----

  ghost predicate ReportedIn(leaves: seq<Leaf>, m: PiiMatch) {
    exists k :: 0 <= k < |leaves| && Reported(leaves[k].text, leaves[k].path, m)
  }

  /** Every match is placed in one of the strings and carries its path. */
  ghost predicate AllIn(leaves: seq<Leaf>, ms: seq<PiiMatch>) {
    forall k | 0 <= k < |ms| :: ReportedIn(leaves, ms[k])
  }

  /** At most one leaf has the path. */
  ghost predicate OnlyOne(leaves: seq<Leaf>, path: string) {
    forall a, b | 0 <= a < b < |leaves| && leaves[a].path == path :: leaves[b].path != path
  }

  /** Matches with the path do not overlap. */
  ghost predicate ApartOn(ms: seq<PiiMatch>, path: string) {
    forall j, k | 0 <= j < k < |ms| && ms[j].jsonPath == ms[k].jsonPath == Some(path) :: !Overlap(ms[j], ms[k])
  }

  lemma BoundaryOfPrefix(text: string, start: nat, end: nat)
    requires start < end <= |text| && Boundary(text, start)
    ensures Boundary(text[..end], start) && text[..end][start..] == text[start..end]
  {
  }

  lemma ReportedIsSound(text: string, path: string, m: PiiMatch)
    requires Valid(text) && Reported(text, path, m)
    ensures m.rawValue != "" && Valid(m.rawValue)
  {
    ValidSplit(text, m.end);
    BoundaryOfPrefix(text, m.start, m.end);
    ValidSplit(text[..m.end], m.start);
  }

  lemma ReportedInMore(a: seq<Leaf>, b: seq<Leaf>, m: PiiMatch)
    ensures ReportedIn(a, m) ==> ReportedIn(a + b, m)
    ensures ReportedIn(b, m) ==> ReportedIn(a + b, m)
  {
    if ReportedIn(a, m) {
      var k :| 0 <= k < |a| && Reported(a[k].text, a[k].path, m);
      assert (a + b)[k] == a[k];
    }
    if ReportedIn(b, m) {
      var k :| 0 <= k < |b| && Reported(b[k].text, b[k].path, m);
      assert (a + b)[|a| + k] == b[k];
    }
  }

  lemma AllInConcat(a: seq<Leaf>, x: seq<PiiMatch>, b: seq<Leaf>, y: seq<PiiMatch>)
    requires AllIn(a, x) && AllIn(b, y)
    ensures AllIn(a + b, x + y)
  {
    forall k | 0 <= k < |x + y|
      ensures ReportedIn(a + b, (x + y)[k])
    {
      ReportedInMore(a, b, (x + y)[k]);
      if k >= |x| {
        assert (x + y)[k] == y[k - |x|];
      }
    }
  }

  lemma PartsDiffer(a: seq<Leaf>, b: seq<Leaf>, m: PiiMatch, r: PiiMatch, path: string)
    requires OnlyOne(a + b, path) && ReportedIn(a, m) && ReportedIn(b, r) && m.jsonPath == Some(path)
    ensures r.jsonPath != Some(path)
  {
    var i :| 0 <= i < |a| && Reported(a[i].text, a[i].path, m);
    var j :| 0 <= j < |b| && Reported(b[j].text, b[j].path, r);
    assert (a + b)[i] == a[i] && (a + b)[|a| + j] == b[j];
  }

  lemma ApartConcat(a: seq<Leaf>, x: seq<PiiMatch>, b: seq<Leaf>, y: seq<PiiMatch>, path: string)
    requires AllIn(a, x) && AllIn(b, y) && OnlyOne(a + b, path) && ApartOn(x, path) && ApartOn(y, path)
    ensures ApartOn(x + y, path)
  {
    var z := x + y;
    forall j, k | 0 <= j < k < |z| && z[j].jsonPath == z[k].jsonPath == Some(path)
      ensures !Overlap(z[j], z[k])
    {
      if j < |x| <= k {
        assert z[j] == x[j] && z[k] == y[k - |x|];
        PartsDiffer(a, b, x[j], y[k - |x|], path);
      } else if j >= |x| {
        assert z[j] == y[j - |x|] && z[k] == y[k - |x|];
      }
    }
  }

  lemma OnlyOneInParts(a: seq<Leaf>, b: seq<Leaf>, path: string)
    requires OnlyOne(a + b, path)
    ensures OnlyOne(a, path) && OnlyOne(b, path)
  {
    forall i, j | 0 <= i < j < |a| && a[i].path == path
      ensures a[j].path != path
    {
      assert (a + b)[i] == a[i] && (a + b)[j] == a[j];
    }
    forall i, j | 0 <= i < j < |b| && b[i].path == path
      ensures b[j].path != path
    {
      assert (a + b)[|a| + i] == b[i] && (a + b)[|a| + j] == b[j];
    }
  }

  lemma AddedAreIn(leaf: Leaf, before: seq<PiiMatch>, all: seq<PiiMatch>)
    requires before <= all && AllReported(leaf.text, leaf.path, all, |before|)
    ensures AllIn([leaf], all[|before|..])
  {
    var added := all[|before|..];
    forall k | 0 <= k < |added|
      ensures ReportedIn([leaf], added[k])
    {
      assert added[k] == all[|before| + k];
      assert Reported([leaf][0].text, [leaf][0].path, added[k]);
    }
  }

  lemma ApartIsApartOn(ms: seq<PiiMatch>, path: string)
    requires ApartFrom(ms, 0)
    ensures ApartOn(ms, path)
  {
  }

  /** One more leaf: what it adds is placed in it, and matches with one path stay apart. */
  lemma LeafJoins(c: Scanner, front: seq<Leaf>, leaf: Leaf, depth: nat, before: seq<PiiMatch>, path: string)
    requires depth <= MAX_NESTED_JSON_DEPTH && LawfulScanner(c) && Valid(leaf.text)
    requires SoundValues(Inner(c, leaf.text, depth)) && AllIn(front, before)
    ensures AllIn(front + [leaf], ScanLeaf(c, leaf, depth, before))
    ensures OnlyOne(front + [leaf], path) && ApartOn(before, path) ==> ApartOn(ScanLeaf(c, leaf, depth, before), path)
  {
    var all := ScanLeaf(c, leaf, depth, before);
    ScanLeafAppends(c, leaf, depth, before);
    var added := all[|before|..];
    assert before + added == all;
    assert AllIn([leaf], added) by {
      ScanLeafReported(c, leaf, depth, before);
      AddedAreIn(leaf, before, all);
    }
    assert ApartOn(added, path) by {
      ScanLeafApart(c, leaf, depth, before);
      assert forall j, k | 0 <= j < k < |added| :: added[j] == all[|before| + j] && added[k] == all[|before| + k];
      ApartIsApartOn(added, path);
    }
    AllInConcat(front, before, [leaf], added);
    if OnlyOne(front + [leaf], path) && ApartOn(before, path) {
      ApartConcat(front, before, [leaf], added, path);
    }
  }

  /** A property of leaves and matches that one more leaf keeps holds of the fold over all leaves. */
  lemma {:induction false} FoldInduction(c: Scanner, leaves: seq<Leaf>, depth: nat, p: (seq<Leaf>, seq<PiiMatch>) -> bool)
    requires depth <= MAX_NESTED_JSON_DEPTH && ValidLeaves(leaves)
    requires p([], [])
    requires forall a, x, leaf: Leaf | p(a, x) && Valid(leaf.text) :: p(a + [leaf], ScanLeaf(c, leaf, depth, x))
    ensures p(leaves, Fold(c, leaves, depth, []))
    decreases |leaves|
  {
    if leaves != [] {
      var front, leaf := leaves[..|leaves| - 1], leaves[|leaves| - 1];
      FoldInduction(c, front, depth, p);
      FoldSnoc(c, front, leaf, depth, []);
      assert front + [leaf] == leaves;
    }
  }

  lemma InIsSound(leaves: seq<Leaf>, ms: seq<PiiMatch>)
    requires ValidLeaves(leaves) && AllIn(leaves, ms)
    ensures SoundValues(ms)
  {
    forall k | 0 <= k < |ms|
      ensures ms[k].rawValue != "" && Valid(ms[k].rawValue)
    {
      assert ReportedIn(leaves, ms[k]);
      var i :| 0 <= i < |leaves| && Reported(leaves[i].text, leaves[i].path, ms[k]);
      ReportedIsSound(leaves[i].text, leaves[i].path, ms[k]);
    }
  }

  lemma {:induction false} InnerIsSound(c: Scanner, s: string, depth: nat)
    requires depth <= MAX_NESTED_JSON_DEPTH && LawfulScanner(c) && Valid(s)
    ensures SoundValues(Inner(c, s, depth))
    decreases MAX_NESTED_JSON_DEPTH - depth, 0
  {
    if depth < MAX_NESTED_JSON_DEPTH && NestedValue(c, s).Some? {
      var v := NestedValue(c, s).value;
      assert ValidTree(v) by {
        assert Valid(c.trim(s));
      }
      var leaves := Leaves(c.skip, v, []);
      LeavesAreValid(c.skip, v, []);
      FoldReported(c, leaves, depth + 1, "");
      InIsSound(leaves, Fold(c, leaves, depth + 1, []));
    }
  }

  lemma {:induction false} FoldReported(c: Scanner, leaves: seq<Leaf>, depth: nat, path: string)
    requires depth <= MAX_NESTED_JSON_DEPTH && LawfulScanner(c) && ValidLeaves(leaves)
    ensures AllIn(leaves, Fold(c, leaves, depth, []))
    ensures OnlyOne(leaves, path) ==> ApartOn(Fold(c, leaves, depth, []), path)
    decreases MAX_NESTED_JSON_DEPTH - depth, 1
  {
    var p := (a, x) => AllIn(a, x) && (OnlyOne(a, path) ==> ApartOn(x, path));
    forall a, x, leaf: Leaf | p(a, x) && Valid(leaf.text)
      ensures p(a + [leaf], ScanLeaf(c, leaf, depth, x))
    {
      InnerIsSound(c, leaf.text, depth);
      LeafJoins(c, a, leaf, depth, x, path);
      if OnlyOne(a + [leaf], path) {
        OnlyOneInParts(a, [leaf], path);
      }
    }
    assert AllIn([], []) && ApartOn([], path);
    assert p([], []);
    FoldInduction(c, leaves, depth, p);
  }

  // ---- Nothing a text scan finds is dropped ----

  lemma OverlapsAnyConcat(a: seq<PiiMatch>, b: seq<PiiMatch>, start: nat, end: nat)
    ensures OverlapsAny(a + b, start, end) <==> OverlapsAny(a, start, end) || OverlapsAny(b, start, end)
  {
    assert forall k | 0 <= k < |a| :: (a + b)[k] == a[k];
    assert forall k | 0 <= k < |b| :: (a + b)[|a| + k] == b[k];
  }

  lemma {:induction false} FoldAppends(c: Scanner, leaves: seq<Leaf>, acc: seq<PiiMatch>)
    ensures acc <= Fold(c, leaves, 0, acc)
    decreases |leaves|
  {
    if leaves != [] {
      var front, leaf := leaves[..|leaves| - 1], leaves[|leaves| - 1];
      FoldAppends(c, front, acc);
      ScanLeafAppends(c, leaf, 0, Fold(c, front, 0, acc));
    }
  }

  /** The leaf's own matches are all reported. */
  ghost predicate OwnReported(c: Scanner, leaf: Leaf, ms: seq<PiiMatch>) {
    forall k | 0 <= k < |c.scan(leaf.text)| :: c.scan(leaf.text)[k].(jsonPath := Some(leaf.path)) in ms
  }

  ghost predicate AllOwnReported(c: Scanner, leaves: seq<Leaf>, ms: seq<PiiMatch>) {
    forall k | 0 <= k < |leaves| :: OwnReported(c, leaves[k], ms)
  }

  lemma OwnReportedByLeaf(c: Scanner, leaf: Leaf, acc: seq<PiiMatch>)
    ensures OwnReported(c, leaf, ScanLeaf(c, leaf, 0, acc))
  {
    var raw := c.scan(leaf.text);
    var start, all := acc + WithPath(raw, leaf.path), ScanLeaf(c, leaf, 0, acc);
    ScanLeafAppends(c, leaf, 0, acc);
    forall k | 0 <= k < |raw|
      ensures raw[k].(jsonPath := Some(leaf.path)) in all
    {
      assert all[|acc| + k] == start[|acc| + k] == WithPath(raw, leaf.path)[k];
    }
  }

  lemma OwnReportedLonger(c: Scanner, leaf: Leaf, a: seq<PiiMatch>, all: seq<PiiMatch>)
    requires a <= all && OwnReported(c, leaf, a)
    ensures OwnReported(c, leaf, all)
  {
    assert forall m | m in a :: m in all;
  }

  lemma {:induction false} FoldReportsOwn(c: Scanner, leaves: seq<Leaf>)
    ensures AllOwnReported(c, leaves, Fold(c, leaves, 0, []))
    decreases |leaves|
  {
    if leaves != [] {
      var front, leaf := leaves[..|leaves| - 1], leaves[|leaves| - 1];
      var before := Fold(c, front, 0, []);
      FoldReportsOwn(c, front);
      ScanLeafAppends(c, leaf, 0, before);
      OwnReportedByLeaf(c, leaf, before);
      forall k | 0 <= k < |front|
        ensures OwnReported(c, leaves[k], ScanLeaf(c, leaf, 0, before))
      {
        assert OwnReported(c, front[k], before);
        OwnReportedLonger(c, front[k], before, ScanLeaf(c, leaf, 0, before));
      }
    }
  }

  lemma OwnReportedConcat(c: Scanner, a: seq<Leaf>, x: seq<PiiMatch>, b: seq<Leaf>, y: seq<PiiMatch>)
    requires AllOwnReported(c, a, x) && AllOwnReported(c, b, y)
    ensures AllOwnReported(c, a + b, x + y)
  {
    forall k | 0 <= k < |a + b|
      ensures OwnReported(c, (a + b)[k], x + y)
    {
      assert forall m | m in x || m in y :: m in x + y;
      if k < |a| {
        assert OwnReported(c, a[k], x);
      } else {
        assert (a + b)[k] == b[k - |a|] && OwnReported(c, b[k - |a|], y);
      }
    }
  }

  // ---- The whole scan ----

  lemma GoodPathsDiffer(json: Value, leaves: seq<Leaf>, path: string)
    requires LeavesOf(json, [], leaves) && PlacesDiffer(leaves) && GoodTree(json)
    ensures OnlyOne(leaves, path)
  {
    forall a, b | 0 <= a < b < |leaves| && leaves[a].path == path
      ensures leaves[b].path != path
    {
      assert LeafOf(json, [], leaves[a]) && LeafOf(json, [], leaves[b]);
      assert leaves[a].place[0..] == leaves[a].place && leaves[b].place[0..] == leaves[b].place;
      PlacesAreGood(json, leaves[a].place);
      PlacesAreGood(json, leaves[b].place);
      PrintIsInjective(leaves[a].place, leaves[b].place);
    }
  }

  lemma SpreadSnoc(c: Scanner, entries: seq<Entry>, e: Entry)
    ensures Spread(c, entries + [e]) == Spread(c, entries) + Fold(c, Leaves(c.skip, e.value, e.place), 0, [])
  {
    assert (entries + [e])[..|entries|] == entries;
  }

  /** The next child: its leaves, and its share of the scan entry by entry. */
  lemma EntriesStep(c: Scanner, v: Value, n: nat)
    requires n < Arity(v)
    ensures LeavesTo(c.skip, v, [], n + 1) == LeavesTo(c.skip, v, [], n) + LeavesAt(c.skip, v, [], n)
    ensures Spread(c, EntriesTo(c.skip, v, n + 1))
            == Spread(c, EntriesTo(c.skip, v, n)) + Fold(c, LeavesAt(c.skip, v, [], n), 0, [])
  {
    var front := EntriesTo(c.skip, v, n);
    if Skipped(c.skip, v, n) {
      assert EntriesTo(c.skip, v, n + 1) == front;
    } else {
      var e := Entry([SegmentAt(v, n)], ChildAt(v, n));
      assert EntriesTo(c.skip, v, n + 1) == front + [e];
      SpreadSnoc(c, front, e);
      assert [] + [SegmentAt(v, n)] == [SegmentAt(v, n)];
    }
  }

  /** What is true of a fold over leaves, and of folds over its parts put one after the other. */
  ghost predicate Sound(c: Scanner, leaves: seq<Leaf>, ms: seq<PiiMatch>, path: string) {
    AllIn(leaves, ms) && (OnlyOne(leaves, path) ==> ApartOn(ms, path)) && AllOwnReported(c, leaves, ms)
  }

  lemma FoldIsSound(c: Scanner, leaves: seq<Leaf>, path: string)
    requires LawfulScanner(c) && ValidLeaves(leaves)
    ensures Sound(c, leaves, Fold(c, leaves, 0, []), path)
  {
    FoldReported(c, leaves, 0, path);
    FoldReportsOwn(c, leaves);
  }

  lemma SoundConcat(c: Scanner, a: seq<Leaf>, x: seq<PiiMatch>, b: seq<Leaf>, y: seq<PiiMatch>, path: string)
    requires Sound(c, a, x, path) && Sound(c, b, y, path)
    ensures Sound(c, a + b, x + y, path)
  {
    AllInConcat(a, x, b, y);
    OwnReportedConcat(c, a, x, b, y);
    if OnlyOne(a + b, path) {
      OnlyOneInParts(a, b, path);
      ApartConcat(a, x, b, y, path);
    }
  }

  lemma LeavesAtAreValid(skip: seq<string>, v: Value, base: Place, i: nat)
    requires ValidTree(v) && i < Arity(v)
    ensures ValidLeaves(LeavesAt(skip, v, base, i))
  {
    LeavesAreValid(skip, ChildAt(v, i), base + [SegmentAt(v, i)]);
  }

  ghost predicate EntryKeeps(c: Scanner, p: (seq<Leaf>, seq<PiiMatch>) -> bool) {
    forall a, x, b | p(a, x) && ValidLeaves(b) :: p(a + b, x + Fold(c, b, 0, []))
  }

  /** Groups of leaves scanned one by one, and their running concatenations. */
  ghost predicate Grouped(c: Scanner, joined: nat -> seq<Leaf>, group: nat -> seq<Leaf>,
                          spread: nat -> seq<PiiMatch>, n: nat) {
    && joined(0) == [] && spread(0) == []
    && forall k: nat | k < n :: && joined(k + 1) == joined(k) + group(k)
                                && spread(k + 1) == spread(k) + Fold(c, group(k), 0, [])
  }

  /** A property of leaves and matches that one more group keeps holds of all groups. */
  lemma {:induction false} GroupInduction(c: Scanner, joined: nat -> seq<Leaf>, group: nat -> seq<Leaf>,
                                          spread: nat -> seq<PiiMatch>, n: nat, p: (seq<Leaf>, seq<PiiMatch>) -> bool)
    requires Grouped(c, joined, group, spread, n) && forall k: nat | k < n :: ValidLeaves(group(k))
    requires p([], []) && EntryKeeps(c, p)
    ensures p(joined(n), spread(n))
  {
    if n > 0 {
      GroupInduction(c, joined, group, spread, n - 1, p);
      assert joined(n - 1 + 1) == joined(n - 1) + group(n - 1);
    }
  }

  lemma EntriesAreGrouped(c: Scanner, v: Value, joined: nat -> seq<Leaf>, group: nat -> seq<Leaf>,
                          spread: nat -> seq<PiiMatch>, n: nat)
    requires n <= Arity(v)
    requires forall k: nat | k <= n ::
               joined(k) == LeavesTo(c.skip, v, [], k) && spread(k) == Spread(c, EntriesTo(c.skip, v, k))
    requires forall k: nat | k < n :: group(k) == LeavesAt(c.skip, v, [], k)
    ensures Grouped(c, joined, group, spread, n)
  {
    forall k: nat | k < n
      ensures joined(k + 1) == joined(k) + group(k) && spread(k + 1) == spread(k) + Fold(c, group(k), 0, [])
    {
      EntriesStep(c, v, k);
    }
  }

  lemma SpreadInduction(c: Scanner, v: Value, p: (seq<Leaf>, seq<PiiMatch>) -> bool)
    requires ValidTree(v) && p([], []) && EntryKeeps(c, p)
    ensures p(LeavesTo(c.skip, v, [], Arity(v)), Spread(c, EntriesTo(c.skip, v, Arity(v))))
  {
    var n := Arity(v);
    var joined := (k: nat) => if k <= n then LeavesTo(c.skip, v, [], k) else [];
    var group := (k: nat) => if k < n then LeavesAt(c.skip, v, [], k) else [];
    var spread := (k: nat) => if k <= n then Spread(c, EntriesTo(c.skip, v, k)) else [];
    EntriesAreGrouped(c, v, joined, group, spread, n);
    forall k: nat | k < n
      ensures ValidLeaves(group(k))
    {
      LeavesAtAreValid(c.skip, v, [], k);
    }
    GroupInduction(c, joined, group, spread, n, p);
  }

  lemma SpreadIsSound(c: Scanner, v: Value, path: string)
    requires LawfulScanner(c) && ValidTree(v)
    ensures Sound(c, LeavesTo(c.skip, v, [], Arity(v)), Spread(c, EntriesTo(c.skip, v, Arity(v))), path)
  {
    var p := (a, x) => Sound(c, a, x, path);
    forall a, x, b | p(a, x) && ValidLeaves(b)
      ensures p(a + b, x + Fold(c, b, 0, []))
    {
      FoldIsSound(c, b, path);
      SoundConcat(c, a, x, b, Fold(c, b, 0, []), path);
    }
    assert Sound(c, [], [], path);
    assert p([], []);
    SpreadInduction(c, v, p);
  }

  /** Every reported match is placed in one of the strings of the body and carries its path; matches with
      one path never overlap unless two strings share it; every match of a string is reported. */
  lemma ScanIsSound(c: Scanner, json: Value, path: string)
    requires LawfulScanner(c) && ValidTree(json)
    ensures Sound(c, Leaves(c.skip, json, []), Scanned(c, json), path)
  {
    LeavesAreValid(c.skip, json, []);
    if |Entries(c.skip, json)| <= 1 {
      FoldIsSound(c, Leaves(c.skip, json, []), path);
    } else {
      SpreadIsSound(c, json, path);
    }
  }

  // ---- Where all keys survive printing ----

  /** Matches with the same path do not overlap. */
  ghost predicate SamePathApart(ms: seq<PiiMatch>) {
    forall j, k | 0 <= j < k < |ms| && ms[j].jsonPath == ms[k].jsonPath :: !Overlap(ms[j], ms[k])
  }

  /** The path is the printed form of a place where the tree has a string in which the match is placed. */
  ghost predicate PlacedAt(json: Value, m: PiiMatch) {
    && m.jsonPath.Some?
    && var p := Parse(m.jsonPath.value);
    && Print(p) == m.jsonPath.value && GoodPlace(p)
    && Locate(json, p).Some? && Locate(json, p).value.Str? && Placed(Locate(json, p).value.s, m)
  }

  lemma ReportedIsPlacedAt(json: Value, leaves: seq<Leaf>, m: PiiMatch)
    requires LeavesOf(json, [], leaves) && ReportedIn(leaves, m) && GoodTree(json)
    ensures PlacedAt(json, m)
  {
    var k :| 0 <= k < |leaves| && Reported(leaves[k].text, leaves[k].path, m);
    assert LeafOf(json, [], leaves[k]);
    assert leaves[k].place[0..] == leaves[k].place;
    PlacesAreGood(json, leaves[k].place);
    PathRoundTrip(leaves[k].place);
  }

  /** Where all keys survive printing, every reported match leads by its path to the string it was found
      in, and no two matches of one string overlap. */
  lemma ScanIsPlaced(c: Scanner, json: Value)
    requires LawfulScanner(c) && GoodTree(json) && ValidTree(json)
    ensures forall k | 0 <= k < |Scanned(c, json)| :: PlacedAt(json, Scanned(c, json)[k])
    ensures SamePathApart(Scanned(c, json))
  {
    var leaves, ms := Leaves(c.skip, json, []), Scanned(c, json);
    GoodIsDistinct(json);
    LeavesAreOf(c.skip, json, []);
    forall k | 0 <= k < |ms|
      ensures PlacedAt(json, ms[k])
    {
      ScanIsSound(c, json, "");
      assert ReportedIn(leaves, ms[k]);
      ReportedIsPlacedAt(json, leaves, ms[k]);
    }
    forall j, k | 0 <= j < k < |ms| && ms[j].jsonPath == ms[k].jsonPath
      ensures !Overlap(ms[j], ms[k])
    {
      assert PlacedAt(json, ms[j]);
      var path := ms[j].jsonPath.value;
      ScanIsSound(c, json, path);
      GoodPathsDiffer(json, leaves, path);
    }
  }
}
