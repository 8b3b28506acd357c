/** Grouping overlapping detections with union-find (hybrid_scanner.rs). */
module Clustering {
  import opened Pii

  datatype ScannerSource = Regex | Keyword | Gazetteer | Semantic

  datatype TaggedMatch = TaggedMatch(piiMatch: PiiMatch, source: ScannerSource)

  // ---- The overlap graph ----

  predicate Overlap(a: PiiMatch, b: PiiMatch) {
    a.start < b.end && b.start < a.end
  }

  /** Two spans that are not empty overlap if and only if some byte is in both. */
  lemma OverlapIffShareByte(a: PiiMatch, b: PiiMatch)
    requires a.start < a.end && b.start < b.end
    ensures Overlap(a, b) <==> ShareByte(a, b)
  {
    if Overlap(a, b) {
      var q := if a.start < b.start then b.start else a.start;
      assert InSpan(a, q) && InSpan(b, q);
    }
  }

  ghost predicate Edge(ts: seq<TaggedMatch>, i: nat, j: nat) {
    i < |ts| && j < |ts| && Overlap(ts[i].piiMatch, ts[j].piiMatch)
  }

  /** A walk along overlapping spans. */
  ghost predicate Chain(ts: seq<TaggedMatch>, p: seq<nat>) {
    && |p| > 0
    && (forall k | 0 <= k < |p| :: p[k] < |ts|)
    && (forall k | 0 <= k < |p| - 1 :: Edge(ts, p[k], p[k + 1]))
  }

  ghost predicate ChainFrom(ts: seq<TaggedMatch>, p: seq<nat>, i: nat, j: nat) {
    Chain(ts, p) && p[0] == i && p[|p| - 1] == j
  }

  ghost predicate Linked(ts: seq<TaggedMatch>, i: nat, j: nat) {
    exists p :: ChainFrom(ts, p, i, j)
  }

  lemma LinkedSelf(ts: seq<TaggedMatch>, i: nat)
    requires i < |ts|
    ensures Linked(ts, i, i)
  {
    assert ChainFrom(ts, [i], i, i);
  }

  lemma LinkedEdge(ts: seq<TaggedMatch>, i: nat, j: nat)
    requires Edge(ts, i, j)
    ensures Linked(ts, i, j)
  {
    assert ChainFrom(ts, [i, j], i, j);
  }

  lemma LinkedSym(ts: seq<TaggedMatch>, i: nat, j: nat)
    requires Linked(ts, i, j)
    ensures Linked(ts, j, i)
  {
    var p :| ChainFrom(ts, p, i, j);
    var n := |p|;
    var q := seq(n, k requires 0 <= k < n => p[n - 1 - k]);
    forall k | 0 <= k < n - 1
      ensures Edge(ts, q[k], q[k + 1])
    {
      assert Edge(ts, p[n - 2 - k], p[n - 2 - k + 1]);
    }
    assert ChainFrom(ts, q, j, i);
  }

  lemma LinkedTrans(ts: seq<TaggedMatch>, i: nat, j: nat, k: nat)
    requires Linked(ts, i, j) && Linked(ts, j, k)
    ensures Linked(ts, i, k)
  {
    var p :| ChainFrom(ts, p, i, j);
    var q :| ChainFrom(ts, q, j, k);
    var r := p + q[1..];
    forall m | 0 <= m < |r| - 1
      ensures Edge(ts, r[m], r[m + 1])
    {
      if m >= |p| - 1 {
        assert Edge(ts, q[m - |p| + 1], q[m - |p| + 1 + 1]);
      } else {
        assert Edge(ts, p[m], p[m + 1]);
      }
    }
    assert ChainFrom(ts, r, i, k);
  }

  // ---- Union-find ----

  /** Element i of a parent forest whose roots are root[i]; parents have smaller depth, so links are acyclic. */
  ghost predicate NodeOk(parent: seq<nat>, root: seq<nat>, depth: seq<nat>, i: nat)
    requires i < |parent| == |root| == |depth|
  {
    && parent[i] < |parent| && root[i] < |parent|
    && root[parent[i]] == root[i] && root[root[i]] == root[i] && parent[root[i]] == root[i]
    && (parent[i] == i <==> root[i] == i)
    && (parent[i] != i ==> depth[parent[i]] < depth[i])
  }

  ghost predicate ForestOk(parent: seq<nat>, root: seq<nat>, depth: seq<nat>) {
    && |parent| == |root| == |depth|
    && forall i: nat | i < |parent| :: NodeOk(parent, root, depth, i)
  }

  lemma CompressionKeepsForest(parent: seq<nat>, root: seq<nat>, depth: seq<nat>, i: nat)
    requires ForestOk(parent, root, depth) && i < |parent| && parent[i] != i
    requires root[i] < |parent| && depth[root[i]] < depth[i]
    ensures ForestOk(parent[i := root[i]], root, depth)
  {
    var p := parent[i := root[i]];
    assert NodeOk(parent, root, depth, i) && NodeOk(parent, root, depth, root[i]);
    forall k: nat | k < |p|
      ensures NodeOk(p, root, depth, k)
    {
      assert NodeOk(parent, root, depth, k) && NodeOk(parent, root, depth, root[k]);
    }
  }

  ghost function MergedRoots(root: seq<nat>, ra: nat, rb: nat): (r: seq<nat>)
    ensures |r| == |root| && forall i: nat | i < |root| :: r[i] == if root[i] == rb then ra else root[i]
  {
    seq(|root|, i requires 0 <= i < |root| => if root[i] == rb then ra else root[i])
  }

  ghost function MergedDepths(root: seq<nat>, depth: seq<nat>, ra: nat, rb: nat): (d: seq<nat>)
    requires |root| == |depth| && ra < |root|
    ensures |d| == |root|
    ensures forall i: nat | i < |root| :: d[i] == if root[i] == rb then depth[i] + depth[ra] + 1 else depth[i]
  {
    seq(|root|, i requires 0 <= i < |root| => if root[i] == rb then depth[i] + depth[ra] + 1 else depth[i])
  }

  lemma UnionKeepsForest(parent: seq<nat>, root: seq<nat>, depth: seq<nat>, ra: nat, rb: nat)
    requires ForestOk(parent, root, depth) && ra < |root| && rb < |root| && ra != rb
    requires root[ra] == ra && root[rb] == rb
    ensures ForestOk(parent[rb := ra], MergedRoots(root, ra, rb), MergedDepths(root, depth, ra, rb))
  {
    var p, r, d := parent[rb := ra], MergedRoots(root, ra, rb), MergedDepths(root, depth, ra, rb);
    assert NodeOk(parent, root, depth, ra) && NodeOk(parent, root, depth, rb);
    forall k: nat | k < |p|
      ensures NodeOk(p, r, d, k)
    {
      assert NodeOk(parent, root, depth, k) && NodeOk(parent, root, depth, root[k]);
    }
  }

  class Forest {
    const parent: array<nat>
    ghost var root: seq<nat>
    ghost var depth: seq<nat>

    ghost predicate Valid()
      reads this, parent
    {
      ForestOk(parent[..], root, depth)
    }

    constructor (n: nat)
      ensures Valid() && fresh(parent) && parent.Length == n
      ensures forall i: nat | i < n :: root[i] == i
    {
      parent := new nat[n](i => i);
      root := seq(n, (i: nat) => i);
      depth := seq(n, _ => 0);
    }

    /** Returns the root of i and makes it the parent of everything on the way. */
    method Find(i: nat) returns (r: nat)
      requires Valid() && i < parent.Length
      modifies parent
      ensures Valid() && r == root[i] && r < parent.Length && (r != i ==> depth[r] < depth[i])
      decreases depth[i]
    {
      assert NodeOk(parent[..], root, depth, i);
      if parent[i] != i {
        ghost var p := parent[i];
        r := Find(parent[i]);
        assert NodeOk(parent[..], root, depth, i);
        CompressionKeepsForest(parent[..], root, depth, i);
        ghost var before := parent[..];
        parent[i] := r;
        assert parent[..] == before[i := r];
      }
      r := parent[i];
    }

    method Union(a: nat, b: nat)
      requires Valid() && a < parent.Length && b < parent.Length
      modifies this, parent
      ensures Valid()
      ensures root == MergedRoots(old(root), old(root[a]), old(root[b]))
    {
      var ra := Find(a);
      var rb := Find(b);
      assert NodeOk(parent[..], root, depth, a) && NodeOk(parent[..], root, depth, b);
      if ra != rb {
        UnionKeepsForest(parent[..], root, depth, ra, rb);
        ghost var before := parent[..];
        parent[rb] := ra;
        assert parent[..] == before[rb := ra];
        root, depth := MergedRoots(root, ra, rb), MergedDepths(root, depth, ra, rb);
      }
    }
  }

  // ---- Clustering ----

  /** Two elements have the same root exactly when a chain of overlapping spans links them. */
  ghost predicate RootsAreComponents(ts: seq<TaggedMatch>, root: seq<nat>) {
    && |root| == |ts|
    && forall a: nat, b: nat | a < |ts| && b < |ts| :: root[a] == root[b] <==> Linked(ts, a, b)
  }

  ghost predicate RootsSound(ts: seq<TaggedMatch>, root: seq<nat>) {
    && |root| == |ts|
    && forall a: nat, b: nat | a < |ts| && b < |ts| && root[a] == root[b] :: Linked(ts, a, b)
  }

  lemma UnionStaysSound(ts: seq<TaggedMatch>, root: seq<nat>, i: nat, j: nat)
    requires RootsSound(ts, root) && i < |ts| && Edge(ts, i, j)
    ensures RootsSound(ts, MergedRoots(root, root[i], root[j]))
  {
    var r := MergedRoots(root, root[i], root[j]);
    LinkedEdge(ts, i, j);
    forall a: nat, b: nat | a < |ts| && b < |ts| && r[a] == r[b]
      ensures Linked(ts, a, b)
    {
      if root[a] != root[b] {
        var x, y := if root[a] == root[j] then b else a, if root[a] == root[j] then a else b;
        LinkedTrans(ts, x, i, j);
        LinkedTrans(ts, x, j, y);
        LinkedSym(ts, x, y);
      }
    }
  }

  lemma {:induction false} ChainKeepsRoot(ts: seq<TaggedMatch>, root: seq<nat>, p: seq<nat>)
    requires Chain(ts, p) && |root| == |ts|
    requires forall a: nat, b: nat | a < b && Edge(ts, a, b) :: root[a] == root[b]
    ensures root[p[0]] == root[p[|p| - 1]]
  {
    if |p| > 1 {
      var q := p[..|p| - 1];
      forall k | 0 <= k < |q| - 1
        ensures Edge(ts, q[k], q[k + 1])
      {
        assert Edge(ts, p[k], p[k + 1]);
      }
      ChainKeepsRoot(ts, root, q);
      var x, y := p[|p| - 2], p[|p| - 2 + 1];
      assert Edge(ts, x, y) && Edge(ts, y, x);
    }
  }

  /** Merges the trees of every overlapping pair. */
  method MergeOverlapping(ts: seq<TaggedMatch>) returns (f: Forest)
    ensures f.Valid() && fresh(f) && fresh(f.parent) && RootsAreComponents(ts, f.root)
  {
    var n := |ts|;
    f := new Forest(n);
    forall a: nat | a < n
      ensures Linked(ts, a, a)
    {
      LinkedSelf(ts, a);
    }
    for i := 0 to n
      invariant f.Valid() && fresh(f) && fresh(f.parent) && RootsSound(ts, f.root)
      invariant forall a: nat, b: nat | a < i && a < b && Edge(ts, a, b) :: f.root[a] == f.root[b]
    {
      for j := i + 1 to n
        invariant f.Valid() && fresh(f) && fresh(f.parent) && RootsSound(ts, f.root)
        invariant forall a: nat, b: nat | a < i && a < b && Edge(ts, a, b) :: f.root[a] == f.root[b]
        invariant forall b: nat | i < b < j && Edge(ts, i, b) :: f.root[i] == f.root[b]
      {
        if Overlap(ts[i].piiMatch, ts[j].piiMatch) {
          UnionStaysSound(ts, f.root, i, j);
          f.Union(i, j);
        }
      }
    }
    forall a: nat, b: nat | a < n && b < n && Linked(ts, a, b)
      ensures f.root[a] == f.root[b]
    {
      var p :| ChainFrom(ts, p, a, b);
      ChainKeepsRoot(ts, f.root, p);
    }
  }

  ghost predicate Ascending(c: seq<nat>) {
    forall a, b | 0 <= a < b < |c| :: c[a] < c[b]
  }

  /** c lists the elements below k with root r, in order. */
  ghost predicate IsGroup(c: seq<nat>, root: seq<nat>, r: nat, k: nat)
    requires k <= |root|
  {
    Ascending(c) && forall x: nat :: x in c <==> x < k && root[x] == r
  }

  /** c lists, in order, exactly the elements linked to its first one. */
  ghost predicate IsComponent(ts: seq<TaggedMatch>, c: seq<nat>) {
    && c != [] && Ascending(c)
    && (forall x | x in c :: x < |ts|)
    && (forall y: nat | y < |ts| :: y in c <==> Linked(ts, c[0], y))
  }

  ghost predicate InSome(clusters: seq<seq<nat>>, x: nat) {
    exists a :: 0 <= a < |clusters| && x in clusters[a]
  }

  /** The clusters are the connected components of the overlap graph: they partition the indices. */
  ghost predicate AreComponents(ts: seq<TaggedMatch>, clusters: seq<seq<nat>>) {
    && (forall a | 0 <= a < |clusters| :: IsComponent(ts, clusters[a]))
    && (forall x: nat | x < |ts| :: InSome(clusters, x))
    && (forall a, b | 0 <= a < b < |clusters| :: clusters[a][0] !in clusters[b])
  }

  /** Two indices are in one cluster exactly when a chain of overlaps links them. */
  lemma SameClusterIffLinked(ts: seq<TaggedMatch>, clusters: seq<seq<nat>>, a: nat, x: nat, y: nat)
    requires AreComponents(ts, clusters) && a < |clusters| && x in clusters[a] && y < |ts|
    ensures y in clusters[a] <==> Linked(ts, x, y)
  {
    var h := clusters[a][0];
    assert IsComponent(ts, clusters[a]);
    assert Linked(ts, h, x);
    LinkedSym(ts, h, x);
    if Linked(ts, h, y) {
      LinkedTrans(ts, x, h, y);
    }
    if Linked(ts, x, y) {
      LinkedTrans(ts, h, x, y);
    }
  }

  lemma ClustersAreDisjoint(ts: seq<TaggedMatch>, clusters: seq<seq<nat>>, a: nat, b: nat, x: nat)
    requires AreComponents(ts, clusters) && a < |clusters| && b < |clusters|
    requires x in clusters[a] && x in clusters[b]
    ensures a == b
  {
    assert IsComponent(ts, clusters[a]) && IsComponent(ts, clusters[b]);
    assert clusters[a][0] in clusters[a] && clusters[b][0] in clusters[b];
    SameClusterIffLinked(ts, clusters, a, x, clusters[b][0]);
    SameClusterIffLinked(ts, clusters, b, x, clusters[b][0]);
    SameClusterIffLinked(ts, clusters, a, x, clusters[a][0]);
    SameClusterIffLinked(ts, clusters, b, x, clusters[a][0]);
  }

  /** The elements below k, grouped by root. */
  ghost predicate Collected(byRoot: map<nat, seq<nat>>, root: seq<nat>, k: nat)
    requires k <= |root|
  {
    && (forall r | r in byRoot :: byRoot[r] != [] && IsGroup(byRoot[r], root, r, k))
    && (forall x: nat | x < k :: root[x] in byRoot)
  }

  function Pushed(byRoot: map<nat, seq<nat>>, r: nat, i: nat): map<nat, seq<nat>> {
    byRoot[r := (if r in byRoot then byRoot[r] else []) + [i]]
  }

  lemma CollectOne(byRoot: map<nat, seq<nat>>, root: seq<nat>, i: nat)
    requires i < |root| && Collected(byRoot, root, i)
    ensures Collected(Pushed(byRoot, root[i], i), root, i + 1)
  {
    var after := Pushed(byRoot, root[i], i);
    forall r | r in after
      ensures after[r] != [] && IsGroup(after[r], root, r, i + 1)
    {
      if r in byRoot {
        assert IsGroup(byRoot[r], root, r, i);
        assert forall k | 0 <= k < |byRoot[r]| :: byRoot[r][k] in byRoot[r];
      }
    }
  }

  method CollectByRoot(f: Forest) returns (byRoot: map<nat, seq<nat>>)
    requires f.Valid()
    modifies f.parent
    ensures f.Valid() && Collected(byRoot, f.root, |f.root|)
  {
    byRoot := map[];
    for i := 0 to f.parent.Length
      invariant f.Valid()
      invariant Collected(byRoot, f.root, i)
    {
      var r := f.Find(i);
      CollectOne(byRoot, f.root, i);
      byRoot := Pushed(byRoot, r, i);
    }
  }

  /** values lists m's values once per key, in the order of keys. */
  ghost predicate Lists(m: map<nat, seq<nat>>, keys: seq<nat>, values: seq<seq<nat>>) {
    && |keys| == |values|
    && (forall k :: k in keys <==> k in m)
    && (forall a, b | 0 <= a < b < |keys| :: keys[a] != keys[b])
    && (forall a | 0 <= a < |keys| :: keys[a] in m && values[a] == m[keys[a]])
  }

  method IntoValues(m: map<nat, seq<nat>>) returns (values: seq<seq<nat>>)
    ensures exists keys: seq<nat> :: Lists(m, keys, values)
  {
    values := [];
    ghost var keys: seq<nat> := [];
    var remaining := m.Keys;
    while remaining != {}
      invariant remaining <= m.Keys && |keys| == |values|
      invariant forall k | k in keys :: k in m && k !in remaining
      invariant forall k | k in m.Keys :: k in remaining || k in keys
      invariant forall a, b | 0 <= a < b < |keys| :: keys[a] != keys[b]
      invariant forall a | 0 <= a < |keys| :: values[a] == m[keys[a]]
      decreases remaining
    {
      var k :| k in remaining;
      remaining := remaining - {k};
      values := values + [m[k]];
      keys := keys + [k];
    }
    assert Lists(m, keys, values);
  }

  lemma GroupIsComponent(ts: seq<TaggedMatch>, root: seq<nat>, r: nat, c: seq<nat>)
    requires RootsAreComponents(ts, root) && IsGroup(c, root, r, |ts|) && c != []
    ensures IsComponent(ts, c)
  {
    assert c[0] in c;
  }

  lemma GroupsAreComponents(ts: seq<TaggedMatch>, root: seq<nat>, byRoot: map<nat, seq<nat>>, clusters: seq<seq<nat>>)
    requires RootsAreComponents(ts, root)
    requires Collected(byRoot, root, |ts|)
    requires exists keys: seq<nat> :: Lists(byRoot, keys, clusters)
    ensures AreComponents(ts, clusters)
  {
    var keys :| Lists(byRoot, keys, clusters);
    forall a | 0 <= a < |clusters|
      ensures IsComponent(ts, clusters[a])
      ensures IsGroup(clusters[a], root, keys[a], |ts|)
    {
      GroupIsComponent(ts, root, keys[a], clusters[a]);
    }
    forall x: nat | x < |ts|
      ensures InSome(clusters, x)
    {
      assert root[x] in keys;
      var a :| 0 <= a < |keys| && keys[a] == root[x];
      assert x in clusters[a];
    }
    forall a, b | 0 <= a < b < |clusters|
      ensures clusters[a][0] !in clusters[b]
    {
      assert clusters[a][0] in clusters[a];
    }
  }

  /** Groups matches by root and hands the groups out in whatever order the hash map yields. */
  method ClusterOverlapping(ts: seq<TaggedMatch>) returns (clusters: seq<seq<nat>>)
    ensures AreComponents(ts, clusters)
  {
    if |ts| == 0 {
      return [];
    }
    var f := MergeOverlapping(ts);
    var byRoot := CollectByRoot(f);
    clusters := IntoValues(byRoot);
    GroupsAreComponents(ts, f.root, byRoot, clusters);
  }
}
