/** The strings of a body in which something is found: the others leave no trace in what the JSON scan reports
    (hybrid_scanner.rs). */
module JsonFindings {
  import opened Utf8
  import opened Pii
  import opened Json
  import opened JsonScan
  import opened JsonMatches

  /** Neither the text scan of the string nor that of JSON nested in it finds anything. */
  predicate Silent(c: Scanner, leaf: Leaf) {
    c.scan(leaf.text) == [] && Inner(c, leaf.text, 0) == []
  }

  function WithFindings(c: Scanner, leaves: seq<Leaf>): seq<Leaf> {
    if leaves == [] then []
    else
      var last := leaves[|leaves| - 1];
      WithFindings(c, leaves[..|leaves| - 1]) + if Silent(c, last) then [] else [last]
  }

  lemma FindingsSnoc(c: Scanner, leaves: seq<Leaf>, leaf: Leaf)
    ensures WithFindings(c, leaves + [leaf]) == WithFindings(c, leaves) + if Silent(c, leaf) then [] else [leaf]
  {
    assert (leaves + [leaf])[..|leaves|] == leaves;
  }

  lemma {:induction false} FindingsConcat(c: Scanner, a: seq<Leaf>, b: seq<Leaf>)
    ensures WithFindings(c, a + b) == WithFindings(c, a) + WithFindings(c, b)
    decreases |b|
  {
    if b == [] {
      assert a + b == a;
    } else {
      var front, last := b[..|b| - 1], b[|b| - 1];
      assert a + b == (a + front) + [last];
      FindingsConcat(c, a, front);
      FindingsSnoc(c, a + front, last);
    }
  }

  lemma {:induction false} FindingsAreLeaves(c: Scanner, leaves: seq<Leaf>)
    ensures forall leaf :: leaf in WithFindings(c, leaves) <==> leaf in leaves && !Silent(c, leaf)
    decreases |leaves|
  {
    if leaves != [] {
      FindingsAreLeaves(c, leaves[..|leaves| - 1]);
      assert leaves == leaves[..|leaves| - 1] + [leaves[|leaves| - 1]];
    }
  }

  lemma {:induction false} FindingsKeepPlaces(c: Scanner, leaves: seq<Leaf>)
    requires PlacesDiffer(leaves)
    ensures PlacesDiffer(WithFindings(c, leaves))
    decreases |leaves|
  {
    if leaves != [] {
      var front, last := leaves[..|leaves| - 1], leaves[|leaves| - 1];
      var found := WithFindings(c, front);
      FindingsKeepPlaces(c, front);
      FindingsAreLeaves(c, front);
      forall k | 0 <= k < |found|
        ensures found[k].place != last.place
      {
        assert found[k] in front;
        var j :| 0 <= j < |front| && front[j] == found[k];
        assert leaves[j] == found[k];
      }
    }
  }

  /** A string in which nothing is found adds nothing. */
  lemma SilentAddsNothing(c: Scanner, leaf: Leaf, acc: seq<PiiMatch>)
    requires Silent(c, leaf)
    ensures ScanLeaf(c, leaf, 0, acc) == acc
  {
    assert acc + WithPath([], leaf.path) == acc;
  }

  lemma {:induction false} FoldOfFindings(c: Scanner, leaves: seq<Leaf>, acc: seq<PiiMatch>)
    ensures Fold(c, WithFindings(c, leaves), 0, acc) == Fold(c, leaves, 0, acc)
    decreases |leaves|
  {
    if leaves != [] {
      var front, last := leaves[..|leaves| - 1], leaves[|leaves| - 1];
      FoldOfFindings(c, front, acc);
      if Silent(c, last) {
        SilentAddsNothing(c, last, Fold(c, front, 0, acc));
        assert WithFindings(c, leaves) == WithFindings(c, front);
      } else {
        FoldSnoc(c, WithFindings(c, front), last, 0, acc);
      }
    }
  }

  /** What is found is what is found in the strings with findings. */
  lemma FoldIsSoundInFindings(c: Scanner, leaves: seq<Leaf>, path: string)
    requires LawfulScanner(c) && ValidLeaves(leaves)
    ensures Sound(c, WithFindings(c, leaves), Fold(c, leaves, 0, []), path)
  {
    FoldOfFindings(c, leaves, []);
    FindingsAreLeaves(c, leaves);
    forall k | 0 <= k < |WithFindings(c, leaves)|
      ensures Valid(WithFindings(c, leaves)[k].text)
    {
      assert WithFindings(c, leaves)[k] in leaves;
    }
    FoldIsSound(c, WithFindings(c, leaves), path);
  }

  lemma SpreadIsSoundInFindings(c: Scanner, v: Value, path: string)
    requires LawfulScanner(c) && ValidTree(v)
    ensures Sound(c, WithFindings(c, LeavesTo(c.skip, v, [], Arity(v))),
                  Spread(c, EntriesTo(c.skip, v, Arity(v))), path)
  {
    var p := (a, x) => Sound(c, WithFindings(c, a), x, path);
    forall a, x, b | p(a, x) && ValidLeaves(b)
      ensures p(a + b, x + Fold(c, b, 0, []))
    {
      FoldIsSoundInFindings(c, b, path);
      FindingsConcat(c, a, b);
      SoundConcat(c, WithFindings(c, a), x, WithFindings(c, b), Fold(c, b, 0, []), path);
    }
    assert Sound(c, [], [], path);
    assert p([], []);
    SpreadInduction(c, v, p);
  }

  /** In any body, every reported match is placed in a string with findings and carries its path, and matches
      with one path never overlap unless two strings with findings share it. */
  lemma ScanIsSoundInFindings(c: Scanner, json: Value, path: string)
    requires LawfulScanner(c) && ValidTree(json)
    ensures Sound(c, WithFindings(c, Leaves(c.skip, json, [])), Scanned(c, json), path)
  {
    LeavesAreValid(c.skip, json, []);
    if |Entries(c.skip, json)| <= 1 {
      FoldIsSoundInFindings(c, Leaves(c.skip, json, []), path);
    } else {
      SpreadIsSoundInFindings(c, json, path);
    }
  }
}
