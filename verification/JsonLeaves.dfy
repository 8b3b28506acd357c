/** Which strings of a body are scanned, and in which order, in terms of the body (hybrid_scanner.rs). */
module JsonLeaves {
  import opened Text
  import opened Json
  import opened JsonScan
  import opened JsonMatches

  // ---- Which strings are scanned ----

  predicate StandsAt(s: string, part: string, k: nat) {
    k + |part| <= |s| && s[k..k + |part|] == part
  }

  /** An embedded image. */
  ghost predicate EmbedsImage(s: string) {
    StandsAt(s, "data:image/", 0) && exists k: nat :: StandsAt(s, ";base64,", k)
  }

  /** The walk goes from v to the child under seg: not under skipped keys, and not to the data of a base64 source. */
  ghost predicate Enters(skip: seq<string>, v: Value, seg: Segment) {
    (seg.Key? && v.Obj?) ==> seg.key !in skip && !(seg.key == "data" && Field("type", Str("base64")) in v.fields)
  }

  ghost predicate EntersAll(skip: seq<string>, v: Value, p: Place) {
    p == [] || (Child(v, p[0]).Some? && Enters(skip, v, p[0]) && EntersAll(skip, Child(v, p[0]).value, p[1..]))
  }

  lemma ImageIffUri(s: string)
    ensures EmbedsImage(s) <==> IsDataUri(s)
  {
    assert |"data:image/"| <= |s| ==> s[0..|"data:image/"|] == s[..|"data:image/"|];
    if FindFrom(s, ";base64,", 0).Some? {
      assert StandsAt(s, ";base64,", FindFrom(s, ";base64,", 0).value);
    }
    if k: nat :| StandsAt(s, ";base64,", k) {
      FindFromFinds(s, ";base64,", 0, k);
    }
  }

  lemma SourceIffType(fields: seq<Field>)
    requires DistinctKeys(fields)
    ensures Field("type", Str("base64")) in fields <==> IsBase64Source(fields)
  {
    if Field("type", Str("base64")) in fields {
      var j :| 0 <= j < |fields| && fields[j] == Field("type", Str("base64"));
      FieldIndexOfDistinct(fields, j);
    }
  }

  lemma SkippedIff(skip: seq<string>, v: Value, i: nat)
    requires DistinctTree(v) && i < Arity(v)
    ensures Skipped(skip, v, i) <==> !Enters(skip, v, SegmentAt(v, i))
  {
    if v.Obj? {
      SourceIffType(v.fields);
    }
  }

  ghost predicate InChild(skip: seq<string>, v: Value, base: Place, i: nat, leaf: Leaf) {
    i < Arity(v) && leaf in LeavesAt(skip, v, base, i)
  }

  lemma {:induction false} InLeavesTo(skip: seq<string>, v: Value, base: Place, n: nat, leaf: Leaf)
    requires n <= Arity(v)
    ensures leaf in LeavesTo(skip, v, base, n) <==> exists i: nat :: i < n && InChild(skip, v, base, i, leaf)
  {
    if n > 0 {
      var k: nat := n - 1;
      InLeavesTo(skip, v, base, k, leaf);
      assert InChild(skip, v, base, k, leaf) <==> leaf in LeavesAt(skip, v, base, k);
    }
  }

  /** The child under a segment, by its number. */
  lemma NumberOfChild(v: Value, seg: Segment) returns (i: nat)
    requires DistinctTree(v) && Child(v, seg).Some?
    ensures i < Arity(v) && SegmentAt(v, i) == seg && Some(ChildAt(v, i)) == Child(v, seg)
  {
    if v.Obj? {
      i := FieldIndex(v.fields, seg.key);
    } else {
      i := seg.index;
    }
  }

  lemma UnderItsChild(skip: seq<string>, v: Value, base: Place, i: nat, leaf: Leaf)
    requires DistinctTree(v) && i < Arity(v) && leaf in LeavesAt(skip, v, base, i)
    ensures |leaf.place| > |base| && leaf.place[|base|] == SegmentAt(v, i)
  {
    var ls := LeavesAt(skip, v, base, i);
    LeavesAtAreOf(skip, v, base, i, ls);
    var k :| 0 <= k < |ls| && ls[k] == leaf;
  }

  lemma PlaceSplit(base: Place, p: Place)
    requires p != []
    ensures base + [p[0]] + p[1..] == base + p && (base + p)[|base|] == p[0]
  {
  }

  lemma ChildHolds(skip: seq<string>, v: Value, base: Place, i: nat, leaf: Leaf)
    requires i < Arity(v)
    ensures InChild(skip, v, base, i, leaf)
            <==> !Skipped(skip, v, i) && leaf in Leaves(skip, ChildAt(v, i), base + [SegmentAt(v, i)])
  {
  }

  /** A leaf lies under the child its place goes to first. */
  lemma LeavesUnderFirst(skip: seq<string>, v: Value, base: Place, p: Place, leaf: Leaf)
    requires DistinctTree(v) && p != [] && |leaf.place| > |base| && leaf.place[|base|] == p[0]
    ensures forall i: nat | InChild(skip, v, base, i, leaf) :: SegmentAt(v, i) == p[0]
    ensures Child(v, p[0]).None? ==> forall i: nat | i < Arity(v) :: SegmentAt(v, i) != p[0]
    ensures forall i: nat, j: nat | i < Arity(v) && j < Arity(v) && SegmentAt(v, i) == SegmentAt(v, j) :: i == j
  {
    forall i: nat | InChild(skip, v, base, i, leaf)
      ensures SegmentAt(v, i) == p[0]
    {
      UnderItsChild(skip, v, base, i, leaf);
    }
    forall i: nat | i < Arity(v)
      ensures Child(v, SegmentAt(v, i)).Some?
    {
      ChildAtSegment(v, i);
    }
    forall i: nat, j: nat | i < j < Arity(v)
      ensures SegmentAt(v, i) != SegmentAt(v, j)
    {
      SegmentsDiffer(v, i, j);
    }
  }

  lemma NoLeafAtContainer(skip: seq<string>, v: Value, base: Place, leaf: Leaf)
    requires DistinctTree(v) && (v.Arr? || v.Obj?) && leaf.place == base
    ensures forall i: nat :: !InChild(skip, v, base, i, leaf)
  {
    forall i: nat
      ensures !InChild(skip, v, base, i, leaf)
    {
      if InChild(skip, v, base, i, leaf) {
        UnderItsChild(skip, v, base, i, leaf);
      }
    }
  }

  lemma LeavesOfScalar(skip: seq<string>, v: Value, base: Place, p: Place, s: string)
    requires !v.Arr? && !v.Obj?
    ensures Leaf(base + p, Print(base + p), s) in Leaves(skip, v, base)
            <==> Locate(v, p) == Some(Str(s)) && EntersAll(skip, v, p) && !EmbedsImage(s)
  {
    if v.Str? {
      ImageIffUri(v.s);
      assert base + p == base ==> p == [];
      assert base + [] == base;
    }
  }

  /** Exactly the strings that a place leads to without passing a skipped key or the data of a base64 source, and
      that embed no image, are scanned, each with the printed form of its place as its path. */
  lemma {:induction false} LeavesExactly(skip: seq<string>, v: Value, base: Place, p: Place, s: string)
    requires DistinctTree(v)
    ensures Leaf(base + p, Print(base + p), s) in Leaves(skip, v, base)
            <==> Locate(v, p) == Some(Str(s)) && EntersAll(skip, v, p) && !EmbedsImage(s)
    decreases |p|
  {
    var leaf := Leaf(base + p, Print(base + p), s);
    if v.Arr? || v.Obj? {
      InLeavesTo(skip, v, base, Arity(v), leaf);
      if p == [] {
        NoLeafAtContainer(skip, v, base, leaf);
      } else {
        PlaceSplit(base, p);
        LeavesUnderFirst(skip, v, base, p, leaf);
        if Child(v, p[0]).Some? {
          var i := NumberOfChild(v, p[0]);
          ChildAtSegment(v, i);
          SkippedIff(skip, v, i);
          LeavesExactly(skip, ChildAt(v, i), base + [p[0]], p[1..], s);
          ChildHolds(skip, v, base, i, leaf);
          assert InChild(skip, v, base, i, leaf)
                 <==> Locate(v, p) == Some(Str(s)) && EntersAll(skip, v, p) && !EmbedsImage(s);
        }
      }
    } else {
      LeavesOfScalar(skip, v, base, p, s);
    }
  }

  // ---- In which order ----

  /** The number of the child under a segment. */
  function Position(v: Value, seg: Segment): nat {
    match (v, seg)
    case (Obj(fields), Key(k)) => FieldIndex(fields, k)
    case (_, Index(i)) => i
    case _ => 0
  }

  /** Where two places first part, the first one goes to an earlier child. */
  ghost predicate Precedes(v: Value, p: Place, q: Place)
    decreases |p|
  {
    && p != [] && q != []
    && if p[0] == q[0] then Child(v, p[0]).Some? && Precedes(Child(v, p[0]).value, p[1..], q[1..])
       else Position(v, p[0]) < Position(v, q[0])
  }

  ghost predicate InOrder(v: Value, base: Place, ls: seq<Leaf>) {
    && (forall k | 0 <= k < |ls| :: |base| <= |ls[k].place|)
    && forall a, b | 0 <= a < b < |ls| :: Precedes(v, ls[a].place[|base|..], ls[b].place[|base|..])
  }

  lemma PositionOfNumber(v: Value, i: nat)
    requires DistinctTree(v) && i < Arity(v)
    ensures Position(v, SegmentAt(v, i)) == i
  {
    if v.Obj? {
      FieldIndexOfDistinct(v.fields, i);
    }
  }

  lemma EarlierChild(v: Value, base: Place, n: nat, p: Place, q: Place)
    requires DistinctTree(v) && n < Arity(v) && |p| > |base| && |q| > |base|
    requires SegmentBefore(v, n, p[|base|]) && q[|base|] == SegmentAt(v, n)
    ensures Precedes(v, p[|base|..], q[|base|..])
  {
    var i :| 0 <= i < n && p[|base|] == SegmentAt(v, i);
    PositionOfNumber(v, i);
    PositionOfNumber(v, n);
    assert p[|base|..][0] == p[|base|] && q[|base|..][0] == q[|base|];
  }

  /** The leaves under the next child come behind those before it. */
  lemma OrderJoins(v: Value, base: Place, n: nat, a: seq<Leaf>, b: seq<Leaf>)
    requires DistinctTree(v) && n < Arity(v) && UnderFirst(v, base, n, a) && UnderChild(v, base, n, b)
    requires InOrder(v, base, a) && InOrder(v, base, b)
    ensures InOrder(v, base, a + b)
  {
    var c := a + b;
    forall i, j | 0 <= i < j < |c|
      ensures Precedes(v, c[i].place[|base|..], c[j].place[|base|..])
    {
      if j < |a| {
        assert Precedes(v, a[i].place[|base|..], a[j].place[|base|..]);
      } else if i >= |a| {
        assert Precedes(v, b[i - |a|].place[|base|..], b[j - |a|].place[|base|..]);
      } else {
        EarlierChild(v, base, n, a[i].place, b[j - |a|].place);
      }
    }
  }

  lemma UnderSame(v: Value, base: Place, i: nat, p: Place, q: Place)
    requires DistinctTree(v) && i < Arity(v) && |p| > |base| && |q| > |base|
    requires p[|base|] == q[|base|] == SegmentAt(v, i)
    requires Precedes(ChildAt(v, i), p[|base| + 1..], q[|base| + 1..])
    ensures Precedes(v, p[|base|..], q[|base|..])
  {
    ChildAtSegment(v, i);
    var x, y := p[|base|..], q[|base|..];
    assert x[0] == p[|base|] && y[0] == q[|base|] && x[1..] == p[|base| + 1..] && y[1..] == q[|base| + 1..];
  }

  lemma OrderInChild(v: Value, base: Place, i: nat, ls: seq<Leaf>)
    requires DistinctTree(v) && i < Arity(v) && UnderChild(v, base, i, ls)
    requires InOrder(ChildAt(v, i), base + [SegmentAt(v, i)], ls)
    ensures InOrder(v, base, ls)
  {
    forall a, b | 0 <= a < b < |ls|
      ensures Precedes(v, ls[a].place[|base|..], ls[b].place[|base|..])
    {
      UnderSame(v, base, i, ls[a].place, ls[b].place);
    }
  }

  lemma {:induction false} GroupsInOrder(v: Value, base: Place, joined: nat -> seq<Leaf>, group: nat -> seq<Leaf>,
                                         n: nat)
    requires DistinctTree(v) && n <= Arity(v) && joined(0) == []
    requires forall i: nat | i < n ::
               joined(i + 1) == joined(i) + group(i) && GroupOf(v, base, i, group(i)) && InOrder(v, base, group(i))
    ensures InOrder(v, base, joined(n))
  {
    if n > 0 {
      var k: nat := n - 1;
      GroupsInOrder(v, base, joined, group, k);
      GroupsJoin(v, base, joined, group, k);
      assert joined(k + 1) == joined(k) + group(k);
      OrderJoins(v, base, k, joined(k), group(k));
    }
  }

  /** The strings are scanned in the order of the body, at every level. */
  lemma {:induction false} LeavesInOrder(skip: seq<string>, v: Value, base: Place)
    requires DistinctTree(v)
    ensures InOrder(v, base, Leaves(skip, v, base))
    decreases v, 1
  {
    if v.Arr? || v.Obj? {
      var n := Arity(v);
      var joined := (k: nat) => if k <= n then LeavesTo(skip, v, base, k) else [];
      var group := (k: nat) => if k < n then LeavesAt(skip, v, base, k) else [];
      LeavesToAreJoined(skip, v, base, joined, group);
      forall i: nat | i < n
        ensures GroupOf(v, base, i, group(i)) && InOrder(v, base, group(i))
      {
        LeavesAtAreOf(skip, v, base, i, group(i));
        LeavesAtInOrder(skip, v, base, i, group(i));
      }
      GroupsInOrder(v, base, joined, group, n);
    }
  }

  lemma {:induction false} LeavesAtInOrder(skip: seq<string>, v: Value, base: Place, i: nat, ls: seq<Leaf>)
    requires DistinctTree(v) && i < Arity(v) && ls == LeavesAt(skip, v, base, i)
    ensures InOrder(v, base, ls)
    decreases v, 0
  {
    if !Skipped(skip, v, i) {
      ChildAtSegment(v, i);
      LeavesAtAreOf(skip, v, base, i, ls);
      LeavesInOrder(skip, ChildAt(v, i), base + [SegmentAt(v, i)]);
      OrderInChild(v, base, i, ls);
    }
  }
}
