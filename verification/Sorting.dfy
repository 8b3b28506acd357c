/** Stable sorting, as the library sorts the scanners and detectors call. */
module Sorting {

  ghost predicate TotalPreorder<T(!new)>(le: (T, T) -> bool) {
    && (forall x, y :: le(x, y) || le(y, x))
    && (forall x, y, z :: le(x, y) && le(y, z) ==> le(x, z))
  }

  ghost predicate Sorted<T>(le: (T, T) -> bool, s: seq<T>) {
    forall i, j | 0 <= i < j < |s| :: le(s[i], s[j])
  }

  /** Puts x before the first element it is at most. */
  function Insert<T>(le: (T, T) -> bool, x: T, s: seq<T>): seq<T> {
    if s == [] || le(x, s[0]) then [x] + s else [s[0]] + Insert(le, x, s[1..])
  }

  function Sort<T>(le: (T, T) -> bool, s: seq<T>): seq<T> {
    if s == [] then [] else Insert(le, s[0], Sort(le, s[1..]))
  }

  lemma {:induction false} InsertKeeps<T>(le: (T, T) -> bool, x: T, s: seq<T>)
    ensures multiset(Insert(le, x, s)) == multiset(s) + multiset{x}
    ensures |Insert(le, x, s)| == |s| + 1
  {
    if s != [] && !le(x, s[0]) {
      InsertKeeps(le, x, s[1..]);
      assert s == [s[0]] + s[1..];
    }
  }

  lemma {:induction false} SortKeeps<T>(le: (T, T) -> bool, s: seq<T>)
    ensures multiset(Sort(le, s)) == multiset(s)
    ensures |Sort(le, s)| == |s|
  {
    if s != [] {
      SortKeeps(le, s[1..]);
      InsertKeeps(le, s[0], Sort(le, s[1..]));
      assert s == [s[0]] + s[1..];
    }
  }

  lemma SortMembers<T>(le: (T, T) -> bool, s: seq<T>)
    ensures forall x :: x in Sort(le, s) <==> x in s
  {
    SortKeeps(le, s);
    forall x
      ensures x in Sort(le, s) <==> x in s
    {
      assert x in multiset(Sort(le, s)) <==> x in multiset(s);
    }
  }

  lemma {:induction false} InsertSorts<T(!new)>(le: (T, T) -> bool, x: T, s: seq<T>)
    requires TotalPreorder(le) && Sorted(le, s)
    ensures Sorted(le, Insert(le, x, s))
  {
    if s != [] && !le(x, s[0]) {
      InsertSorts(le, x, s[1..]);
      var r := Insert(le, x, s[1..]);
      forall j | 0 <= j < |r|
        ensures le(s[0], r[j])
      {
        InsertKeeps(le, x, s[1..]);
        assert r[j] in multiset(r);
        assert r[j] == x || r[j] in s[1..];
      }
    }
  }

  lemma {:induction false} SortSorts<T(!new)>(le: (T, T) -> bool, s: seq<T>)
    requires TotalPreorder(le)
    ensures Sorted(le, Sort(le, s))
  {
    if s != [] {
      SortSorts(le, s[1..]);
      InsertSorts(le, s[0], Sort(le, s[1..]));
    }
  }

  /** A sorted sequence is left alone: the sort is stable. */
  lemma {:induction false} SortOfSorted<T>(le: (T, T) -> bool, s: seq<T>)
    requires Sorted(le, s)
    ensures Sort(le, s) == s
  {
    if s != [] {
      SortOfSorted(le, s[1..]);
      if |s| > 1 {
        assert le(s[0], s[1]);
      }
      assert s == [s[0]] + s[1..];
    }
  }

  function Equivalents<T>(le: (T, T) -> bool, k: T, s: seq<T>): seq<T> {
    if s == [] then []
    else (if le(k, s[0]) && le(s[0], k) then [s[0]] else []) + Equivalents(le, k, s[1..])
  }

  lemma {:induction false} InsertIsStable<T(!new)>(le: (T, T) -> bool, k: T, x: T, s: seq<T>)
    requires TotalPreorder(le)
    ensures Equivalents(le, k, Insert(le, x, s)) == Equivalents(le, k, [x] + s)
  {
    assert ([x] + s)[1..] == s;
    if s != [] && !le(x, s[0]) {
      InsertIsStable(le, k, x, s[1..]);
      var r := Insert(le, x, s[1..]);
      assert ([s[0]] + r)[1..] == r;
      assert ([x] + s[1..])[1..] == s[1..];
    }
  }

  /** Elements that compare equal keep their order. */
  lemma {:induction false} SortIsStable<T(!new)>(le: (T, T) -> bool, k: T, s: seq<T>)
    requires TotalPreorder(le)
    ensures Equivalents(le, k, Sort(le, s)) == Equivalents(le, k, s)
  {
    if s != [] {
      SortIsStable(le, k, s[1..]);
      InsertIsStable(le, k, s[0], Sort(le, s[1..]));
      assert ([s[0]] + Sort(le, s[1..]))[1..] == Sort(le, s[1..]);
    }
  }

  ghost predicate Pairwise<T>(r: (T, T) -> bool, s: seq<T>) {
    forall i, j | 0 <= i < j < |s| :: r(s[i], s[j])
  }

  lemma {:induction false} InsertKeepsPairwise<T(!new)>(le: (T, T) -> bool, r: (T, T) -> bool, x: T, s: seq<T>)
    requires forall a, b :: r(a, b) ==> r(b, a)
    requires Pairwise(r, s) && forall y | y in s :: r(x, y)
    ensures Pairwise(r, Insert(le, x, s))
  {
    if s != [] && !le(x, s[0]) {
      InsertKeepsPairwise(le, r, x, s[1..]);
      InsertKeeps(le, x, s[1..]);
      var t := Insert(le, x, s[1..]);
      forall j | 0 <= j < |t|
        ensures r(s[0], t[j])
      {
        assert t[j] in multiset(t);
        if t[j] != x {
          assert t[j] in s[1..];
          var k :| 0 <= k < |s| - 1 && s[1..][k] == t[j];
          assert r(s[0], s[k + 1]);
        } else {
          assert r(x, s[0]);
        }
      }
    }
  }

  /** A symmetric relation between all pairs of elements survives sorting. */
  lemma {:induction false} SortKeepsPairwise<T(!new)>(le: (T, T) -> bool, r: (T, T) -> bool, s: seq<T>)
    requires forall a, b :: r(a, b) ==> r(b, a)
    requires Pairwise(r, s)
    ensures Pairwise(r, Sort(le, s))
  {
    if s != [] {
      SortKeepsPairwise(le, r, s[1..]);
      SortMembers(le, s[1..]);
      forall y | y in Sort(le, s[1..])
        ensures r(s[0], y)
      {
        var k :| 0 <= k < |s| - 1 && s[1..][k] == y;
        assert r(s[0], s[k + 1]);
      }
      InsertKeepsPairwise(le, r, s[0], Sort(le, s[1..]));
    }
  }
}
