/** Applying replacements to the strings of a JSON body, last offset first (body.rs). */
module Splice {
  import opened Text
  import opened Utf8
  import opened Pii
  import opened Json
  import opened JsonRewrite
  import opened JsonMatches
  import opened Clustering
  import Sorting

  datatype Replacement = Replacement(original: PiiMatch, encrypted: string)

  // ---- One string ----

  /** The gaps of the text and the new values in turn, from left to right. */
  function Interleaved(s: string, rs: seq<Replacement>, from: nat): string {
    if rs == [] then (if from <= |s| then s[from..] else "")
    else
      var r := rs[0];
      (if from <= r.original.start <= |s| then s[from..r.original.start] else "")
      + r.encrypted + Interleaved(s, rs[1..], r.original.end)
  }

  /** Later starts first. */
  function Later(): (Replacement, Replacement) -> bool {
    (x: Replacement, y: Replacement) => x.original.start >= y.original.start
  }

  function SpansApart(): (Replacement, Replacement) -> bool {
    (x: Replacement, y: Replacement) => !Overlap(x.original, y.original)
  }

  function Reverse<T>(s: seq<T>): (r: seq<T>)
    ensures |r| == |s| && forall k | 0 <= k < |s| :: r[k] == s[|s| - 1 - k]
  {
    seq(|s|, k requires 0 <= k < |s| => s[|s| - 1 - k])
  }

  /** The span lies in the text, between character boundaries, whatever it was found in. */
  ghost predicate SpanOk(s: string, m: PiiMatch) {
    m.start < m.end <= |s| && Boundary(s, m.start) && Boundary(s, m.end)
  }

  /** Spans of the text, with well-formed new values, and none overlapping another. */
  ghost predicate Fits(s: string, rs: seq<Replacement>) {
    && (forall r | r in rs :: SpanOk(s, r.original) && Valid(r.encrypted))
    && Sorting.Pairwise(SpansApart(), rs)
  }

  /** Spans of the text from a position on, each ending before the next one starts. */
  ghost predicate Ascending(s: string, rs: seq<Replacement>, from: nat) {
    && (forall k | 0 <= k < |rs| :: SpanOk(s, rs[k].original) && Valid(rs[k].encrypted) && from <= rs[k].original.start)
    && (forall j, k | 0 <= j < k < |rs| :: rs[j].original.end <= rs[k].original.start)
  }

  /** The replacements by where they start. */
  function InOrder(rs: seq<Replacement>): seq<Replacement> {
    Reverse(Sorting.Sort(Later(), rs))
  }

  lemma InOrderAscends(s: string, rs: seq<Replacement>)
    requires Fits(s, rs)
    ensures Ascending(s, InOrder(rs), 0)
  {
    var d, up := Sorting.Sort(Later(), rs), InOrder(rs);
    Sorting.SortSorts(Later(), rs);
    Sorting.SortMembers(Later(), rs);
    Sorting.SortKeepsPairwise(Later(), SpansApart(), rs);
    assert forall k | 0 <= k < |d| :: d[k] in d;
    forall j, k | 0 <= j < k < |up|
      ensures up[j].original.end <= up[k].original.start
    {
      assert Later()(d[|d| - 1 - k], d[|d| - 1 - j]) && SpansApart()(d[|d| - 1 - k], d[|d| - 1 - j]);
    }
  }

  lemma InOrderHasAll(rs: seq<Replacement>)
    ensures forall r :: r in InOrder(rs) <==> r in rs
    ensures |InOrder(rs)| == |rs|
  {
    var d := Sorting.Sort(Later(), rs);
    Sorting.SortMembers(Later(), rs);
    Sorting.SortKeeps(Later(), rs);
    forall r
      ensures r in InOrder(rs) <==> r in d
    {
      if r in d {
        var k :| 0 <= k < |d| && d[k] == r;
        assert InOrder(rs)[|d| - 1 - k] == r;
      }
    }
  }

  lemma AscendingRest(s: string, rs: seq<Replacement>, from: nat)
    requires Ascending(s, rs, from) && rs != []
    ensures Ascending(s, rs[1..], rs[0].original.end)
  {
  }

  lemma AscendingTail(s: string, rs: seq<Replacement>, i: nat)
    requires Ascending(s, rs, 0) && i < |rs|
    ensures SpanOk(s, rs[i].original) && Ascending(s, rs[i + 1..], rs[i].original.end)
    ensures rs[i..] == [rs[i]] + rs[i + 1..]
  {
    var tail := rs[i + 1..];
    assert forall k | 0 <= k < |tail| :: tail[k] == rs[i + 1 + k];
  }

  lemma Regroup(a: string, b: string, c: string, d: string)
    ensures a + (b + c + d) == a + b + c + d
  {
  }

  /** The text before the first replacement comes out unchanged. */
  lemma InterleavedFrom(s: string, rs: seq<Replacement>, from: nat)
    requires from <= |s| && Ascending(s, rs, from)
    ensures Interleaved(s, rs, 0) == s[..from] + Interleaved(s, rs, from)
  {
    if rs == [] {
      assert s[0..] == s[..from] + s[from..];
    } else {
      var r, rest := rs[0], Interleaved(s, rs[1..], rs[0].original.end);
      assert SpanOk(s, r.original);
      assert s[0..r.original.start] == s[..from] + s[from..r.original.start];
      Regroup(s[..from], s[from..r.original.start], r.encrypted, rest);
    }
  }

  lemma ValidSlice(s: string, a: nat, b: nat)
    requires Valid(s) && a <= b <= |s| && Boundary(s, a) && Boundary(s, b)
    ensures Valid(s[a..b])
  {
    ValidSplit(s, b);
    if a < b {
      BoundaryOfPrefix(s, a, b);
      ValidSplit(s[..b], a);
    }
  }

  lemma {:induction false} InterleavedIsValid(s: string, rs: seq<Replacement>, from: nat)
    requires Valid(s) && from <= |s| && Boundary(s, from) && Ascending(s, rs, from)
    ensures Valid(Interleaved(s, rs, from))
    decreases |rs|
  {
    if rs == [] {
      ValidSplit(s, from);
    } else {
      var r := rs[0];
      assert SpanOk(s, r.original);
      AscendingRest(s, rs, from);
      InterleavedIsValid(s, rs[1..], r.original.end);
      ValidSlice(s, from, r.original.start);
      ValidConcat(s[from..r.original.start], r.encrypted);
      ValidConcat(s[from..r.original.start] + r.encrypted, Interleaved(s, rs[1..], r.original.end));
    }
  }

  lemma JoinIsBoundary(a: string, b: string)
    requires Valid(b)
    ensures Boundary(a + b, |a|)
  {
    if b != "" {
      ValidStartsClean(b);
    }
  }

  /** In a text with everything from the end of a span on replaced, the span is where it was, between
      character boundaries. */
  lemma SpanStaysPut(s: string, m: PiiMatch, rest: string)
    requires SpanOk(s, m) && Valid(rest)
    ensures var t := s[..m.end] + rest;
            && Boundary(t, m.start) && Boundary(t, m.end)
            && t[..m.start] == s[..m.start] && t[m.end..] == rest
  {
    var t := s[..m.end] + rest;
    JoinIsBoundary(s[..m.end], rest);
    assert t[m.start] == s[m.start];
  }

  /** One round of the replacing loop: a span that does not lie in the text is passed over, and
      String::replace_range panics, here None, unless the span lies between character boundaries. */
  function SpliceOne(text: string, r: Replacement): Option<string> {
    var m := r.original;
    if m.start > |text| || m.end > |text| then Some(text)
    else if m.start <= m.end && Boundary(text, m.start) && Boundary(text, m.end) then
      Some(text[..m.start] + r.encrypted + text[m.end..])
    else None
  }

  /** The rounds for some replacements, in turn. */
  function SpliceAll(text: string, rs: seq<Replacement>): Option<string> {
    if rs == [] then Some(text)
    else match SpliceAll(text, rs[..|rs| - 1])
      case None => None
      case Some(t) => SpliceOne(t, rs[|rs| - 1])
  }

  lemma {:induction false} PanicEndsLoop(text: string, rs: seq<Replacement>, k: nat)
    requires k <= |rs| && SpliceAll(text, rs[..k]) == None
    ensures SpliceAll(text, rs) == None
    decreases |rs|
  {
    if k == |rs| {
      assert rs[..k] == rs;
    } else {
      assert rs[..|rs| - 1][..k] == rs[..k];
      PanicEndsLoop(text, rs[..|rs| - 1], k);
    }
  }

  /** The replacing loop over one string, last start first. */
  method ApplyToText(text: string, rs: seq<Replacement>) returns (result: Option<string>)
    ensures result == SpliceAll(text, Sorting.Sort(Later(), rs))
  {
    var sorted := Sorting.Sort(Later(), rs);
    var current := text;
    for k := 0 to |sorted|
      invariant SpliceAll(text, sorted[..k]) == Some(current)
    {
      var m := sorted[k].original;
      assert sorted[..k + 1][..k] == sorted[..k];
      if m.start <= |current| && m.end <= |current| {
        if !(m.start <= m.end && Boundary(current, m.start) && Boundary(current, m.end)) {
          PanicEndsLoop(text, sorted, k + 1);
          return None;
        }
        current := current[..m.start] + sorted[k].encrypted + current[m.end..];
      }
    }
    assert sorted[..|sorted|] == sorted;
    result := Some(current);
  }

  /** One replacement more, on a text where all those behind it are done. */
  lemma SpliceOneMore(s: string, r: Replacement, done: seq<Replacement>)
    requires Valid(s) && SpanOk(s, r.original) && Ascending(s, done, r.original.end)
    ensures SpliceOne(Interleaved(s, done, 0), r) == Some(Interleaved(s, [r] + done, 0))
  {
    var rest := Interleaved(s, done, r.original.end);
    InterleavedFrom(s, done, r.original.end);
    InterleavedIsValid(s, done, r.original.end);
    SpanStaysPut(s, r.original, rest);
    assert ([r] + done)[1..] == done && s[0..r.original.start] == s[..r.original.start];
  }

  lemma {:induction false} DescendingSplices(s: string, sorted: seq<Replacement>, up: seq<Replacement>, k: nat)
    requires Valid(s) && Ascending(s, up, 0) && up == Reverse(sorted) && k <= |sorted|
    ensures SpliceAll(s, sorted[..k]) == Some(Interleaved(s, up[|up| - k..], 0))
  {
    var n := |up|;
    if k == 0 {
      assert s[0..] == s && up[n..] == [];
    } else {
      DescendingSplices(s, sorted, up, k - 1);
      assert sorted[..k][..k - 1] == sorted[..k - 1];
      AscendingTail(s, up, n - k);
      SpliceOneMore(s, up[n - k], up[n - k + 1..]);
    }
  }

  /** Replacing at the last offset first never goes out of bounds or into a character, and gives the gaps
      of the text interleaved with the new values. */
  lemma FittingSplices(s: string, rs: seq<Replacement>)
    requires Valid(s) && Fits(s, rs)
    ensures SpliceAll(s, Sorting.Sort(Later(), rs)) == Some(Interleaved(s, InOrder(rs), 0))
  {
    var sorted, up := Sorting.Sort(Later(), rs), InOrder(rs);
    InOrderAscends(s, rs);
    DescendingSplices(s, sorted, up, |sorted|);
    assert sorted[..|sorted|] == sorted && up[0..] == up;
  }

  // ---- Where everything ends up ----

  /** How much longer the text gets. */
  function Growth(rs: seq<Replacement>): int {
    if rs == [] then 0
    else |rs[0].encrypted| - (rs[0].original.end - rs[0].original.start) + Growth(rs[1..])
  }

  /** A part of the result, by its offset and what it reads. */
  ghost predicate Reads(t: string, at: int, part: string) {
    0 <= at && at + |part| <= |t| && t[at..at + |part|] == part
  }

  /** The text from gap up to a span, and then the span's new value, both moved. */
  ghost predicate Lays(s: string, t: string, gap: nat, r: Replacement, moved: int) {
    && gap <= r.original.start <= |s|
    && Reads(t, gap + moved, s[gap..r.original.start]) && Reads(t, r.original.start + moved, r.encrypted)
  }

  lemma ReadsBehind(front: string, t: string, at: int, part: string)
    requires Reads(t, at, part)
    ensures Reads(front + t, |front| + at, part)
  {
    var u := front + t;
    assert u[|front| + at..|front| + at + |part|] == t[at..at + |part|];
  }

  lemma LaysBehind(s: string, front: string, t: string, gap: nat, r: Replacement, moved: int)
    requires Lays(s, t, gap, r, moved)
    ensures Lays(s, front + t, gap, r, |front| + moved)
  {
    ReadsBehind(front, t, gap + moved, s[gap..r.original.start]);
    ReadsBehind(front, t, r.original.start + moved, r.encrypted);
  }

  lemma LaysFirst(s: string, from: nat, r: Replacement, rest: string, t: string)
    requires from <= r.original.start <= |s| && t == s[from..r.original.start] + r.encrypted + rest
    ensures Lays(s, t, from, r, 0 - from)
  {
    var gap := s[from..r.original.start];
    assert t[0..|gap|] == gap && t[|gap|..|gap| + |r.encrypted|] == r.encrypted;
  }

  lemma {:induction false} InterleavedLength(s: string, rs: seq<Replacement>, from: nat)
    requires from <= |s| && Ascending(s, rs, from)
    ensures |Interleaved(s, rs, from)| == |s| - from + Growth(rs)
    decreases |rs|
  {
    if rs != [] {
      assert SpanOk(s, rs[0].original);
      AscendingRest(s, rs, from);
      InterleavedLength(s, rs[1..], rs[0].original.end);
    }
  }

  lemma LaysNext(s: string, from: nat, r: Replacement, rest: string, t: string, gap: nat, x: Replacement, moved: int)
    requires from <= r.original.start < r.original.end <= |s| && t == s[from..r.original.start] + r.encrypted + rest
    requires Lays(s, rest, gap, x, moved + from - r.original.start - |r.encrypted|)
    ensures Lays(s, t, gap, x, moved)
  {
    LaysBehind(s, s[from..r.original.start] + r.encrypted, rest, gap, x, moved + from - r.original.start - |r.encrypted|);
  }

  lemma GrowthOfPrefix(rs: seq<Replacement>, i: nat)
    requires 0 < i <= |rs|
    ensures Growth(rs[..i])
            == |rs[0].encrypted| - (rs[0].original.end - rs[0].original.start) + Growth(rs[1..][..i - 1])
  {
    assert rs[..i][1..] == rs[1..][..i - 1];
  }

  /** Where the unchanged text in front of the i-th span starts. */
  function GapStart(rs: seq<Replacement>, from: nat, i: nat): nat
    requires i < |rs|
  {
    if i == 0 then from else rs[i - 1].original.end
  }

  lemma InterleavedUnfolds(s: string, rs: seq<Replacement>, from: nat)
    requires rs != [] && from <= rs[0].original.start <= |s|
    ensures Interleaved(s, rs, from)
            == s[from..rs[0].original.start] + rs[0].encrypted + Interleaved(s, rs[1..], rs[0].original.end)
  {
  }

  /** Non-empty spans of the text from a position on, one after the other. */
  ghost predicate SpansAscend(s: string, rs: seq<Replacement>, from: nat) {
    && (forall k | 0 <= k < |rs| :: from <= rs[k].original.start < rs[k].original.end <= |s|)
    && (forall j, k | 0 <= j < k < |rs| :: rs[j].original.end <= rs[k].original.start)
  }

  lemma AscendingSpans(s: string, rs: seq<Replacement>)
    requires Ascending(s, rs, 0)
    ensures SpansAscend(s, rs, 0)
  {
    assert forall k | 0 <= k < |rs| :: SpanOk(s, rs[k].original);
  }

  lemma SpansLayNext(s: string, rs: seq<Replacement>, from: nat, i: nat, rest: string, t: string, moved: int)
    requires 0 < i < |rs| && from <= rs[0].original.start < rs[0].original.end <= |s|
    requires t == s[from..rs[0].original.start] + rs[0].encrypted + rest
    requires Lays(s, rest, GapStart(rs[1..], rs[0].original.end, i - 1), rs[1..][i - 1],
                  moved + from - rs[0].original.start - |rs[0].encrypted|)
    ensures Lays(s, t, GapStart(rs, from, i), rs[i], moved)
  {
    assert GapStart(rs[1..], rs[0].original.end, i - 1) == GapStart(rs, from, i);
    LaysNext(s, from, rs[0], rest, t, GapStart(rs, from, i), rs[i], moved);
  }

  lemma SpansAscendTail(s: string, rs: seq<Replacement>, from: nat)
    requires SpansAscend(s, rs, from) && rs != []
    ensures SpansAscend(s, rs[1..], rs[0].original.end)
  {
  }

  lemma {:induction false} SpansLay(s: string, rs: seq<Replacement>, from: nat, i: nat, t: string, moved: int)
    requires from <= |s| && SpansAscend(s, rs, from) && i < |rs|
    requires t == Interleaved(s, rs, from) && moved == Growth(rs[..i]) - from
    ensures Lays(s, t, GapStart(rs, from, i), rs[i], moved)
    decreases |rs|
  {
    var r, tail := rs[0], rs[1..];
    var rest := Interleaved(s, tail, r.original.end);
    InterleavedUnfolds(s, rs, from);
    if i == 0 {
      LaysFirst(s, from, r, rest, t);
    } else {
      GrowthOfPrefix(rs, i);
      SpansAscendTail(s, rs, from);
      SpansLay(s, tail, r.original.end, i - 1, rest, moved + from - r.original.start - |r.encrypted|);
      SpansLayNext(s, rs, from, i, rest, t, moved);
    }
  }

  /** Each new value stands where its span stood, moved by the growth of those before it, right behind
      the unchanged text between the span before and its own. */
  lemma InterleavedLays(s: string, rs: seq<Replacement>, i: nat)
    requires Ascending(s, rs, 0) && i < |rs|
    ensures Lays(s, Interleaved(s, rs, 0), GapStart(rs, 0, i), rs[i], Growth(rs[..i]))
  {
    AscendingSpans(s, rs);
    SpansLay(s, rs, 0, i, Interleaved(s, rs, 0), Growth(rs[..i]));
  }

  // ---- What is left of the text ----

  /** The replacements with nothing for new values. */
  function Emptied(rs: seq<Replacement>): (r: seq<Replacement>)
    ensures |r| == |rs| && forall k | 0 <= k < |r| :: r[k] == rs[k].(encrypted := "")
  {
    seq(|rs|, k requires 0 <= k < |rs| => rs[k].(encrypted := ""))
  }

  /** The byte lies in one of the replaced spans. */
  predicate Inside(rs: seq<Replacement>, q: nat) {
    exists k :: 0 <= k < |rs| && rs[k].original.start <= q < rs[k].original.end
  }

  /** The bytes from a position on that lie in no replaced span. */
  function Outside(s: string, rs: seq<Replacement>, from: nat): string
    decreases |s| - from
  {
    if from >= |s| then ""
    else (if Inside(rs, from) then "" else [s[from]]) + Outside(s, rs, from + 1)
  }

  lemma {:induction false} OutsideSkips(s: string, rs: seq<Replacement>, a: nat, b: nat)
    requires a <= b <= |s| && forall q | a <= q < b :: Inside(rs, q)
    ensures Outside(s, rs, a) == Outside(s, rs, b)
    decreases b - a
  {
    if a < b {
      OutsideSkips(s, rs, a + 1, b);
    }
  }

  lemma OneByteBefore(s: string, a: nat, b: nat, rest: string)
    requires a < b <= |s|
    ensures [s[a]] + (s[a + 1..b] + rest) == s[a..b] + rest
  {
  }

  lemma {:induction false} OutsideKeeps(s: string, rs: seq<Replacement>, a: nat, b: nat)
    requires a <= b <= |s| && forall q | a <= q < b :: !Inside(rs, q)
    ensures Outside(s, rs, a) == s[a..b] + Outside(s, rs, b)
    decreases b - a
  {
    if a < b {
      OutsideKeeps(s, rs, a + 1, b);
      OneByteBefore(s, a, b, Outside(s, rs, b));
    }
  }

  lemma {:induction false} OutsideAgrees(s: string, rs: seq<Replacement>, others: seq<Replacement>, from: nat)
    requires forall q: nat | from <= q :: Inside(rs, q) <==> Inside(others, q)
    ensures Outside(s, rs, from) == Outside(s, others, from)
    decreases |s| - from
  {
    if from < |s| {
      OutsideAgrees(s, rs, others, from + 1);
    }
  }

  lemma InsideFirst(s: string, rs: seq<Replacement>, from: nat, q: nat)
    requires SpansAscend(s, rs, from) && rs != [] && from <= q
    ensures q < rs[0].original.start ==> !Inside(rs, q)
    ensures rs[0].original.start <= q < rs[0].original.end ==> Inside(rs, q)
    ensures rs[0].original.end <= q ==> (Inside(rs, q) <==> Inside(rs[1..], q))
  {
    if k :| 1 <= k < |rs| && rs[k].original.start <= q < rs[k].original.end {
      assert rs[1..][k - 1] == rs[k];
    }
  }

  lemma EmptiedStep(s: string, rs: seq<Replacement>, from: nat)
    requires rs != [] && from <= rs[0].original.start <= |s|
    ensures Interleaved(s, Emptied(rs), from)
            == s[from..rs[0].original.start] + Interleaved(s, Emptied(rs[1..]), rs[0].original.end)
  {
    assert Emptied(rs)[0] == rs[0].(encrypted := "") && Emptied(rs)[1..] == Emptied(rs[1..]);
    InterleavedUnfolds(s, Emptied(rs), from);
    assert s[from..rs[0].original.start] + "" == s[from..rs[0].original.start];
  }

  lemma OutsideStep(s: string, rs: seq<Replacement>, from: nat)
    requires from <= |s| && SpansAscend(s, rs, from) && rs != []
    ensures Outside(s, rs, from) == s[from..rs[0].original.start] + Outside(s, rs[1..], rs[0].original.end)
  {
    var m, rest := rs[0].original, rs[1..];
    forall q: nat | from <= q
      ensures q < m.start ==> !Inside(rs, q)
      ensures m.start <= q < m.end ==> Inside(rs, q)
      ensures m.end <= q ==> (Inside(rs, q) <==> Inside(rest, q))
    {
      InsideFirst(s, rs, from, q);
    }
    OutsideKeeps(s, rs, from, m.start);
    OutsideSkips(s, rs, m.start, m.end);
    OutsideAgrees(s, rs, rest, m.end);
  }

  /** Without the new values, the result is exactly the bytes that lie in no replaced span, in their order. */
  lemma {:induction false} OnlyOutsideIsLeft(s: string, rs: seq<Replacement>, from: nat)
    requires from <= |s| && SpansAscend(s, rs, from)
    ensures Interleaved(s, Emptied(rs), from) == Outside(s, rs, from)
    decreases |rs|
  {
    if rs == [] {
      OutsideKeeps(s, rs, from, |s|);
      assert s[from..|s|] + "" == s[from..];
    } else {
      SpansAscendTail(s, rs, from);
      OnlyOutsideIsLeft(s, rs[1..], rs[0].original.end);
      EmptiedStep(s, rs, from);
      OutsideStep(s, rs, from);
    }
  }

  // ---- The whole body ----

  function PathOf(r: Replacement): string {
    match r.original.jsonPath
    case None => ""
    case Some(path) => path
  }

  function PlaceOf(r: Replacement): Place {
    Parse(PathOf(r))
  }

  function OnPath(rs: seq<Replacement>, path: string): seq<Replacement> {
    if rs == [] then []
    else OnPath(rs[..|rs| - 1], path) + if PathOf(rs[|rs| - 1]) == path then [rs[|rs| - 1]] else []
  }

  lemma {:induction false} OnPathMembers(rs: seq<Replacement>, path: string)
    ensures forall r :: r in OnPath(rs, path) <==> r in rs && PathOf(r) == path
    decreases |rs|
  {
    if rs != [] {
      OnPathMembers(rs[..|rs| - 1], path);
      assert rs == rs[..|rs| - 1] + [rs[|rs| - 1]];
    }
  }

  ghost predicate Groups(rs: seq<Replacement>, byPath: map<string, seq<Replacement>>) {
    && (forall path :: path in byPath <==> OnPath(rs, path) != [])
    && (forall path | path in byPath :: byPath[path] == OnPath(rs, path))
  }

  lemma GroupsGrow(rs: seq<Replacement>, byPath: map<string, seq<Replacement>>, r: Replacement)
    requires Groups(rs, byPath)
    ensures var path := PathOf(r);
            Groups(rs + [r], byPath[path := (if path in byPath then byPath[path] else []) + [r]])
  {
    assert (rs + [r])[..|rs|] == rs;
  }

  method GroupByPath(rs: seq<Replacement>) returns (byPath: map<string, seq<Replacement>>)
    ensures Groups(rs, byPath)
  {
    byPath := map[];
    for k := 0 to |rs|
      invariant Groups(rs[..k], byPath)
    {
      var path := PathOf(rs[k]);
      GroupsGrow(rs[..k], byPath, rs[k]);
      assert rs[..k + 1] == rs[..k] + [rs[k]];
      byPath := byPath[path := (if path in byPath then byPath[path] else []) + [rs[k]]];
    }
    assert rs[..|rs|] == rs;
  }

  /** Where a path leads to a string, its replacements fit that string, and no other path leads there. */
  ghost predicate Applicable(json: Value, rs: seq<Replacement>) {
    forall r | r in rs && StringAt(json, PlaceOf(r)).Some? ::
      && Fits(StringAt(json, PlaceOf(r)).value, OnPath(rs, PathOf(r)))
      && forall q | q in rs && PlaceOf(q) == PlaceOf(r) :: PathOf(q) == PathOf(r)
  }

  /** The string a path leads to with all its replacements made. */
  function Replaced(json: Value, rs: seq<Replacement>, path: string): string
    requires StringAt(json, Parse(path)).Some?
  {
    Interleaved(StringAt(json, Parse(path)).value, InOrder(OnPath(rs, path)), 0)
  }

  ghost predicate LeadsTo(json: Value, paths: set<string>, p: Place) {
    StringAt(json, p).Some? && exists path :: path in paths && Parse(path) == p
  }

  ghost predicate HoldsReplaced(json: Value, rs: seq<Replacement>, paths: set<string>, m: map<Place, string>) {
    forall path | path in paths && StringAt(json, Parse(path)).Some? ::
      Parse(path) in m && m[Parse(path)] == Replaced(json, rs, path)
  }

  /** The map holds the new string of every place one of the paths leads to, if there is a string. */
  ghost predicate Substitutes(json: Value, rs: seq<Replacement>, paths: set<string>, m: map<Place, string>) {
    (forall p :: p in m <==> LeadsTo(json, paths, p)) && HoldsReplaced(json, rs, paths, m)
  }

  function Paths(rs: seq<Replacement>): set<string> {
    set r | r in rs :: PathOf(r)
  }

  /** There is only one such map: the order in which paths are visited leaves no trace. */
  lemma SubstitutesIsUnique(json: Value, rs: seq<Replacement>, paths: set<string>,
                            m: map<Place, string>, n: map<Place, string>)
    requires Substitutes(json, rs, paths, m) && Substitutes(json, rs, paths, n)
    ensures m == n
  {
    forall p | p in m
      ensures p in n && m[p] == n[p]
    {
      assert LeadsTo(json, paths, p);
    }
    assert m.Keys == n.Keys;
  }

  lemma StringsAreValid(v: Value, p: Place)
    requires ValidTree(v) && StringAt(v, p).Some?
    ensures Valid(StringAt(v, p).value)
    decreases |p|
  {
    if p != [] {
      StringsAreValid(Child(v, p[0]).value, p[1..]);
    }
  }

  lemma LeadsToOneMore(json: Value, done: set<string>, path: string, q: Place)
    ensures LeadsTo(json, done + {path}, q)
            <==> LeadsTo(json, done, q) || (q == Parse(path) && StringAt(json, q).Some?)
  {
    if q == Parse(path) {
      assert path in done + {path};
    }
    if LeadsTo(json, done, q) {
      var other :| other in done && Parse(other) == q;
      assert other in done + {path};
    }
  }

  // ---- Path after path ----

  /** What one path does to the tree: if it leads to a string, the replacing loop over that string. */
  function ApplyOne(current: Value, rs: seq<Replacement>, path: string): Option<Value> {
    match Locate(current, Parse(path))
    case Some(Str(s)) =>
      (match SpliceAll(s, Sorting.Sort(Later(), OnPath(rs, path)))
       case None => None
       case Some(text) => Some(SetString(current, Parse(path), text)))
    case _ => Some(current)
  }

  function ApplyInTurn(json: Value, rs: seq<Replacement>, order: seq<string>): Option<Value> {
    if order == [] then Some(json)
    else match ApplyInTurn(json, rs, order[..|order| - 1])
      case None => None
      case Some(current) => ApplyOne(current, rs, order[|order| - 1])
  }

  /** All the paths, each once. */
  ghost predicate Enumerates(order: seq<string>, paths: set<string>) {
    && (forall path :: path in order <==> path in paths)
    && (forall j, k | 0 <= j < k < |order| :: order[j] != order[k])
  }

  /** The outcome for some order of the paths. */
  ghost predicate InSomeOrder(json: Value, rs: seq<Replacement>, result: Option<Value>) {
    exists order :: Enumerates(order, Paths(rs)) && result == ApplyInTurn(json, rs, order)
  }

  lemma InTurnSnoc(json: Value, rs: seq<Replacement>, order: seq<string>, path: string)
    ensures ApplyInTurn(json, rs, order + [path])
            == match ApplyInTurn(json, rs, order) case None => None case Some(v) => ApplyOne(v, rs, path)
  {
    assert (order + [path])[..|order|] == order;
  }

  lemma EnumeratesSnoc(order: seq<string>, paths: set<string>, path: string)
    requires Enumerates(order, paths) && path !in paths
    ensures Enumerates(order + [path], paths + {path})
  {
  }

  /** Some order of the remaining paths, behind those already taken. */
  lemma {:induction false} ListedBehind(json: Value, rs: seq<Replacement>, order: seq<string>, done: set<string>,
                                        todo: set<string>) returns (all: seq<string>)
    requires Enumerates(order, done) && done !! todo && ApplyInTurn(json, rs, order) == None
    ensures Enumerates(all, done + todo) && ApplyInTurn(json, rs, all) == None
    decreases todo
  {
    if todo == {} {
      all := order;
      assert done + todo == done;
    } else {
      var path :| path in todo;
      EnumeratesSnoc(order, done, path);
      InTurnSnoc(json, rs, order, path);
      all := ListedBehind(json, rs, order + [path], done + {path}, todo - {path});
      assert done + {path} + (todo - {path}) == done + todo;
    }
  }

  /** One path: follow it, and if it leads to a string, put the new string there. */
  method ApplyPath(current: Value, path: string, group: seq<Replacement>, ghost rs: seq<Replacement>)
    returns (result: Option<Value>)
    requires group == OnPath(rs, path)
    ensures result == ApplyOne(current, rs, path)
  {
    result := Some(current);
    var target := Navigate(current, path);
    match target {
      case Some(Str(s)) =>
        var text := ApplyToText(s, group);
        match text {
          case None => return None;
          case Some(t) => result := Some(SetString(current, Parse(path), t));
        }
      case _ =>
    }
  }

  lemma PathsHaveReplacements(rs: seq<Replacement>, path: string)
    ensures path in Paths(rs) <==> OnPath(rs, path) != []
  {
    OnPathMembers(rs, path);
    if OnPath(rs, path) != [] {
      assert OnPath(rs, path)[0] in OnPath(rs, path);
    }
    if path in Paths(rs) {
      var r :| r in rs && PathOf(r) == path;
      assert r in OnPath(rs, path);
    }
  }

  lemma GroupedPaths(rs: seq<Replacement>, byPath: map<string, seq<Replacement>>)
    requires Groups(rs, byPath)
    ensures byPath.Keys == Paths(rs)
  {
    forall path
      ensures path in byPath <==> path in Paths(rs)
    {
      PathsHaveReplacements(rs, path);
    }
  }

  method ApplyNext(current: Value, path: string, group: seq<Replacement>, ghost json: Value,
                   ghost rs: seq<Replacement>, ghost order: seq<string>, ghost done: set<string>)
    returns (next: Option<Value>)
    requires ApplyInTurn(json, rs, order) == Some(current) && group == OnPath(rs, path)
    requires Enumerates(order, done) && path !in done
    ensures next == ApplyInTurn(json, rs, order + [path]) && Enumerates(order + [path], done + {path})
  {
    EnumeratesSnoc(order, done, path);
    InTurnSnoc(json, rs, order, path);
    next := ApplyPath(current, path, group, rs);
  }

  lemma PanicInSomeOrder(json: Value, rs: seq<Replacement>, order: seq<string>, done: set<string>)
    requires Enumerates(order, done) && done <= Paths(rs) && ApplyInTurn(json, rs, order) == None
    ensures InSomeOrder(json, rs, None)
  {
    var all := ListedBehind(json, rs, order, done, Paths(rs) - done);
    assert done + (Paths(rs) - done) == Paths(rs);
  }

  /** The paths are split into those done, in some order, and those still to do. */
  ghost predicate Between(rs: seq<Replacement>, order: seq<string>, done: set<string>, todo: set<string>) {
    done !! todo && done + todo == Paths(rs) && Enumerates(order, done)
  }

  lemma MoveOne(done: set<string>, todo: set<string>, path: string)
    requires done !! todo && path in todo
    ensures path !in done && done + {path} !! todo - {path} && done + {path} + (todo - {path}) == done + todo
  {
  }

  method ApplyGroups(json: Value, byPath: map<string, seq<Replacement>>, ghost rs: seq<Replacement>)
    returns (result: Option<Value>)
    requires byPath.Keys == Paths(rs) && forall path | path in byPath :: byPath[path] == OnPath(rs, path)
    ensures InSomeOrder(json, rs, result)
  {
    var current, todo := json, byPath.Keys;
    ghost var order: seq<string>, done: set<string> := [], {};
    while todo != {}
      invariant todo <= byPath.Keys && Between(rs, order, done, todo)
      invariant ApplyInTurn(json, rs, order) == Some(current)
      decreases |todo|
    {
      var path :| path in todo;
      MoveOne(done, todo, path);
      var next := ApplyNext(current, path, byPath[path], json, rs, order, done);
      order, done, todo := order + [path], done + {path}, todo - {path};
      if next.None? {
        PanicInSomeOrder(json, rs, order, done);
        return None;
      }
      current := next.value;
    }
    assert done == Paths(rs);
    result := Some(current);
  }

  /** The replacements of a whole body, in whatever order the hash map yields the paths. */
  method ApplyReplacements(json: Value, rs: seq<Replacement>) returns (result: Option<Value>)
    ensures InSomeOrder(json, rs, result)
  {
    var byPath := GroupByPath(rs);
    GroupedPaths(rs, byPath);
    result := ApplyGroups(json, byPath, rs);
  }

  lemma OneElsewhere(current: Value, rs: seq<Replacement>, path: string, q: Place)
    requires ApplyOne(current, rs, path).Some?
    ensures var after := ApplyOne(current, rs, path).value;
            && (StringAt(after, q).Some? <==> StringAt(current, q).Some?)
            && (Parse(path) != q ==> StringAt(after, q) == StringAt(current, q))
  {
    match Locate(current, Parse(path))
    case Some(Str(s)) =>
      var text := SpliceAll(s, Sorting.Sort(Later(), OnPath(rs, path)));
      if text.Some? {
        SetElsewhere(current, Parse(path), text.value, q);
      }
    case _ =>
  }

  lemma {:induction false} InTurnElsewhere(json: Value, rs: seq<Replacement>, order: seq<string>, q: Place)
    requires ApplyInTurn(json, rs, order).Some?
    ensures var after := ApplyInTurn(json, rs, order).value;
            && (StringAt(after, q).Some? <==> StringAt(json, q).Some?)
            && ((forall path | path in order :: Parse(path) != q) ==> StringAt(after, q) == StringAt(json, q))
    decreases |order|
  {
    if order != [] {
      var front, path := order[..|order| - 1], order[|order| - 1];
      InTurnElsewhere(json, rs, front, q);
      OneElsewhere(ApplyInTurn(json, rs, front).value, rs, path, q);
      assert order == front + [path];
    }
  }

  /** Whatever the body, the replacements and the order of the paths: places stay what they were, and strings
      no path leads to come out as they went in. */
  lemma OtherStringsStay(json: Value, rs: seq<Replacement>, result: Option<Value>, q: Place)
    requires InSomeOrder(json, rs, result) && result.Some?
    ensures StringAt(result.value, q).Some? <==> StringAt(json, q).Some?
    ensures (forall r | r in rs :: PlaceOf(r) != q) ==> StringAt(result.value, q) == StringAt(json, q)
  {
    var order :| Enumerates(order, Paths(rs)) && result == ApplyInTurn(json, rs, order);
    InTurnElsewhere(json, rs, order, q);
    if forall r | r in rs :: PlaceOf(r) != q {
      forall path | path in order
        ensures Parse(path) != q
      {
        assert path in Paths(rs);
      }
    }
  }

  // ---- String by string ----

  /** What the paths that lead to p, in their order, make of the string there. */
  function SpliceInTurn(s: string, rs: seq<Replacement>, order: seq<string>, p: Place): Option<string> {
    if order == [] then Some(s)
    else match SpliceInTurn(s, rs, order[..|order| - 1], p)
      case None => None
      case Some(t) =>
        var path := order[|order| - 1];
        if Parse(path) == p then SpliceAll(t, Sorting.Sort(Later(), OnPath(rs, path))) else Some(t)
  }

  lemma OneThere(current: Value, rs: seq<Replacement>, path: string, s: string)
    requires StringAt(current, Parse(path)) == Some(s)
    ensures var text := SpliceAll(s, Sorting.Sort(Later(), OnPath(rs, path)));
            && (ApplyOne(current, rs, path) == None <==> text == None)
            && (text.Some? ==> ApplyOne(current, rs, path) == Some(SetString(current, Parse(path), text.value)))
            && (text.Some? ==> StringAt(ApplyOne(current, rs, path).value, Parse(path)) == text)
  {
    var text := SpliceAll(s, Sorting.Sort(Later(), OnPath(rs, path)));
    if text.Some? {
      SetThere(current, Parse(path), text.value);
    }
  }

  /** Every string goes its own way: in any body, what it becomes depends on itself and the paths that lead
      to it alone. */
  lemma {:induction false} StringInTurn(json: Value, rs: seq<Replacement>, order: seq<string>, p: Place)
    requires ApplyInTurn(json, rs, order).Some? && StringAt(json, p).Some?
    ensures StringAt(ApplyInTurn(json, rs, order).value, p) == SpliceInTurn(StringAt(json, p).value, rs, order, p)
    decreases |order|
  {
    if order != [] {
      var front, path := order[..|order| - 1], order[|order| - 1];
      var current := ApplyInTurn(json, rs, front).value;
      InTurnElsewhere(json, rs, front, p);
      StringInTurn(json, rs, front, p);
      OneElsewhere(current, rs, path, p);
      if Parse(path) == p {
        OneThere(current, rs, path, StringAt(current, p).value);
      }
    }
  }

  ghost predicate Stuck(json: Value, rs: seq<Replacement>, order: seq<string>, p: Place) {
    StringAt(json, p).Some? && SpliceInTurn(StringAt(json, p).value, rs, order, p) == None
  }

  /** The code panics exactly if it would on some string taken alone. */
  lemma {:induction false} PanicsIff(json: Value, rs: seq<Replacement>, order: seq<string>)
    ensures ApplyInTurn(json, rs, order) == None <==> exists p :: Stuck(json, rs, order, p)
    decreases |order|
  {
    if p :| Stuck(json, rs, order, p) && ApplyInTurn(json, rs, order).Some? {
      InTurnElsewhere(json, rs, order, p);
      StringInTurn(json, rs, order, p);
    }
    if order != [] && ApplyInTurn(json, rs, order) == None {
      var front, path := order[..|order| - 1], order[|order| - 1];
      PanicsIff(json, rs, front);
      if ApplyInTurn(json, rs, front) == None {
        var p :| Stuck(json, rs, front, p);
        assert Stuck(json, rs, order, p);
      } else {
        var current := ApplyInTurn(json, rs, front).value;
        InTurnElsewhere(json, rs, front, Parse(path));
        StringInTurn(json, rs, front, Parse(path));
        OneThere(current, rs, path, StringAt(current, Parse(path)).value);
        assert Stuck(json, rs, order, Parse(path));
      }
    }
  }

  /** A string that only one path leads to gets the replacements on that path, once. */
  lemma {:induction false} OnlyPathInTurn(s: string, rs: seq<Replacement>, order: seq<string>, path: string)
    requires forall j, k | 0 <= j < k < |order| :: order[j] != order[k]
    requires forall other | other in order && Parse(other) == Parse(path) :: other == path
    ensures SpliceInTurn(s, rs, order, Parse(path))
            == if path in order then SpliceAll(s, Sorting.Sort(Later(), OnPath(rs, path))) else Some(s)
    decreases |order|
  {
    if order != [] {
      var front, last := order[..|order| - 1], order[|order| - 1];
      assert order == front + [last];
      OnlyPathInTurn(s, rs, front, path);
      assert last == path ==> path !in front;
    }
  }

  ghost function SetOf(order: seq<string>): set<string> {
    set path | path in order
  }

  /** The map holds, for every string some path leads to, what becomes of it. */
  ghost predicate HoldsInTurn(json: Value, rs: seq<Replacement>, order: seq<string>, m: map<Place, string>) {
    && (forall p :: p in m <==> LeadsTo(json, SetOf(order), p))
    && forall p | p in m ::
         StringAt(json, p).Some? && SpliceInTurn(StringAt(json, p).value, rs, order, p) == Some(m[p])
  }

  lemma HoldsOneMore(json: Value, rs: seq<Replacement>, front: seq<string>, path: string, m: map<Place, string>,
                     text: string)
    requires HoldsInTurn(json, rs, front, m) && StringAt(json, Parse(path)).Some?
    requires SpliceInTurn(StringAt(json, Parse(path)).value, rs, front + [path], Parse(path)) == Some(text)
    ensures HoldsInTurn(json, rs, front + [path], m[Parse(path) := text])
  {
    var order := front + [path];
    assert SetOf(order) == SetOf(front) + {path} && order[..|order| - 1] == front;
    forall p
      ensures p in m[Parse(path) := text] <==> LeadsTo(json, SetOf(order), p)
    {
      LeadsToOneMore(json, SetOf(front), path, p);
    }
  }

  lemma HoldsNoMore(json: Value, rs: seq<Replacement>, front: seq<string>, path: string, m: map<Place, string>)
    requires HoldsInTurn(json, rs, front, m) && StringAt(json, Parse(path)).None?
    ensures HoldsInTurn(json, rs, front + [path], m)
  {
    var order := front + [path];
    assert SetOf(order) == SetOf(front) + {path} && order[..|order| - 1] == front;
    forall p
      ensures p in m <==> LeadsTo(json, SetOf(order), p)
    {
      LeadsToOneMore(json, SetOf(front), path, p);
    }
  }

  /** Nothing but those strings changes in the tree. */
  lemma {:induction false} RewrittenInTurn(json: Value, rs: seq<Replacement>, order: seq<string>)
    returns (m: map<Place, string>)
    requires DistinctTree(json) && ApplyInTurn(json, rs, order).Some?
    ensures ApplyInTurn(json, rs, order) == Some(Rewrite(json, [], m)) && HoldsInTurn(json, rs, order, m)
    decreases |order|
  {
    if order == [] {
      m := map[];
      RewriteNothing(json, []);
    } else {
      var front, path := order[..|order| - 1], order[|order| - 1];
      assert order == front + [path];
      m := RewrittenInTurn(json, rs, front);
      StringInRewrite(json, m, Parse(path));
      if StringAt(json, Parse(path)).Some? {
        var current := Rewrite(json, [], m);
        var s := StringAt(current, Parse(path)).value;
        var text := SpliceAll(s, Sorting.Sort(Later(), OnPath(rs, path)));
        StringInTurn(json, rs, front, Parse(path));
        OneThere(current, rs, path, s);
        assert [] + Parse(path) == Parse(path);
        RewriteOneMore(json, [], m, Parse(path), text.value);
        HoldsOneMore(json, rs, front, path, m, text.value);
        m := m[Parse(path) := text.value];
      } else {
        HoldsNoMore(json, rs, front, path, m);
      }
    }
  }

  /** The outcome, string by string: a panic if one of them panics, and otherwise the tree with each string
      some path leads to replaced by what those paths make of it. */
  ghost predicate StringByString(json: Value, rs: seq<Replacement>, order: seq<string>, result: Option<Value>) {
    && (result.None? <==> exists p :: Stuck(json, rs, order, p))
    && (result.Some? ==> exists m :: HoldsInTurn(json, rs, order, m) && result.value == Rewrite(json, [], m))
  }

  /** In any body with distinct keys, for all replacements and every order of the paths. */
  lemma InTurnIsStringByString(json: Value, rs: seq<Replacement>, order: seq<string>)
    requires DistinctTree(json)
    ensures StringByString(json, rs, order, ApplyInTurn(json, rs, order))
  {
    PanicsIff(json, rs, order);
    if ApplyInTurn(json, rs, order).Some? {
      var m := RewrittenInTurn(json, rs, order);
    }
  }

  /** The outcome for some order of the paths, string by string. */
  ghost predicate ComesOut(json: Value, rs: seq<Replacement>, result: Option<Value>) {
    exists order :: Enumerates(order, Paths(rs)) && StringByString(json, rs, order, result)
  }

  lemma OutcomeIsStringByString(json: Value, rs: seq<Replacement>, result: Option<Value>)
    requires DistinctTree(json) && InSomeOrder(json, rs, result)
    ensures ComesOut(json, rs, result)
  {
    var order :| Enumerates(order, Paths(rs)) && result == ApplyInTurn(json, rs, order);
    InTurnIsStringByString(json, rs, order);
  }

  ghost predicate OnlyPathTo(rs: seq<Replacement>, path: string) {
    forall other | other in Paths(rs) && Parse(other) == Parse(path) :: other == path
  }

  /** A string that one path at most leads to, whatever the other strings and replacements are: it comes out
      with the replacements on that path made, once. */
  lemma OnlyPathReplaces(json: Value, rs: seq<Replacement>, result: Option<Value>, path: string, s: string)
    requires InSomeOrder(json, rs, result) && result.Some? && OnlyPathTo(rs, path)
    requires StringAt(json, Parse(path)) == Some(s)
    ensures StringAt(result.value, Parse(path)) == SpliceAll(s, Sorting.Sort(Later(), OnPath(rs, path)))
    ensures Valid(s) && Fits(s, OnPath(rs, path)) ==>
              StringAt(result.value, Parse(path)) == Some(Interleaved(s, InOrder(OnPath(rs, path)), 0))
  {
    var order :| Enumerates(order, Paths(rs)) && result == ApplyInTurn(json, rs, order);
    assert forall other :: other in order <==> other in Paths(rs);
    StringInTurn(json, rs, order, Parse(path));
    OnlyPathInTurn(s, rs, order, path);
    PathsHaveReplacements(rs, path);
    if path !in order {
      assert OnPath(rs, path) == [] && Sorting.Sort(Later(), []) == [];
    }
    if Valid(s) && Fits(s, OnPath(rs, path)) {
      FittingSplices(s, OnPath(rs, path));
    }
  }

  // ---- All at once ----

  /** The tree with every replacement made at once. */
  ghost predicate Sanitized(json: Value, rs: seq<Replacement>, result: Value) {
    exists m :: Substitutes(json, rs, Paths(rs), m) && result == Rewrite(json, [], m)
  }

  lemma ApplicableToOne(json: Value, rs: seq<Replacement>, order: seq<string>, path: string)
    requires ValidTree(json) && Applicable(json, rs) && Enumerates(order, Paths(rs))
    requires path in Paths(rs) && StringAt(json, Parse(path)).Some?
    ensures SpliceInTurn(StringAt(json, Parse(path)).value, rs, order, Parse(path)) == Some(Replaced(json, rs, path))
  {
    var s := StringAt(json, Parse(path)).value;
    var r :| r in rs && PathOf(r) == path;
    forall other | other in order && Parse(other) == Parse(path)
      ensures other == path
    {
      assert other in Paths(rs);
      var q :| q in rs && PathOf(q) == other;
      assert PlaceOf(q) == PlaceOf(r) ==> PathOf(q) == PathOf(r);
    }
    OnlyPathInTurn(s, rs, order, path);
    assert path in order;
    StringsAreValid(json, Parse(path));
    FittingSplices(s, OnPath(rs, path));
  }

  lemma NoPathInTurn(s: string, rs: seq<Replacement>, order: seq<string>, p: Place)
    requires forall other | other in order :: Parse(other) != p
    ensures SpliceInTurn(s, rs, order, p) == Some(s)
  {
    if order != [] {
      assert order == order[..|order| - 1] + [order[|order| - 1]];
      NoPathInTurn(s, rs, order[..|order| - 1], p);
    }
  }

  lemma ApplicableNeverStuck(json: Value, rs: seq<Replacement>, order: seq<string>, p: Place)
    requires ValidTree(json) && Applicable(json, rs) && Enumerates(order, Paths(rs))
    ensures !Stuck(json, rs, order, p)
  {
    if StringAt(json, p).Some? {
      if path :| path in order && Parse(path) == p {
        ApplicableToOne(json, rs, order, path);
      } else {
        NoPathInTurn(StringAt(json, p).value, rs, order, p);
      }
    }
  }

  /** Applicable replacements never panic, and give the body with all of them made at once, whatever order
      the paths are taken in. */
  lemma ApplicableInAnyOrder(json: Value, rs: seq<Replacement>, result: Option<Value>)
    requires ValidTree(json) && DistinctTree(json) && Applicable(json, rs) && InSomeOrder(json, rs, result)
    ensures result.Some? && Sanitized(json, rs, result.value)
  {
    var order :| Enumerates(order, Paths(rs)) && result == ApplyInTurn(json, rs, order);
    forall p
      ensures !Stuck(json, rs, order, p)
    {
      ApplicableNeverStuck(json, rs, order, p);
    }
    PanicsIff(json, rs, order);
    var m := RewrittenInTurn(json, rs, order);
    assert SetOf(order) == Paths(rs);
    forall path | path in Paths(rs) && StringAt(json, Parse(path)).Some?
      ensures Parse(path) in m && m[Parse(path)] == Replaced(json, rs, path)
    {
      assert LeadsTo(json, SetOf(order), Parse(path));
      ApplicableToOne(json, rs, order, path);
    }
    assert Substitutes(json, rs, Paths(rs), m);
  }
}
