/** From a scanned body to the body that is sent on: scan, replace, splice (body.rs). */
module Sanitize {
  import opened Text
  import opened Utf8
  import opened Pii
  import opened Json
  import opened JsonRewrite
  import opened JsonScan
  import opened JsonMatches
  import opened JsonFindings
  import opened JsonCoverage
  import opened Clustering
  import opened TextScan
  import opened Splice
  import opened RequestBody

  // ---- New values are well-formed texts ----

  ghost predicate AsciiText(s: string) {
    forall k | 0 <= k < |s| :: Ascii(s[k])
  }

  lemma {:induction false} Base36IsAscii(v: nat, n: nat)
    ensures AsciiText(HashTokens.Base36(v, n))
    decreases n
  {
    if n > 0 {
      Base36IsAscii(v / 36, n - 1);
      var c := HashTokens.BASE36_CHARS[v % 36];
      assert '0' <= c <= '9' || 'a' <= c <= 'z';
    }
  }

  lemma {:induction false} ResolvedIsAscii(h: HashTokens.Hasher, used: map<string, string>, base: string,
                                           plaintext: string, i: nat)
    requires h.Lawful() && i <= 26 && AsciiText(base)
    ensures AsciiText(HashTokens.Resolve(h, used, base, plaintext, i))
    decreases 26 - i
  {
    if i == 26 {
      Base36IsAscii(HashTokens.BigEndian(h.sha(base + plaintext)[..4]), 4);
    } else {
      ResolvedIsAscii(h, used, base, plaintext, i + 1);
    }
  }

  ghost predicate AsciiTokens(st: HashTokens.State) {
    forall k | k in st.seen :: AsciiText(st.seen[k])
  }

  lemma TokenIsAscii(h: HashTokens.Hasher, st: HashTokens.State, r: HashTokens.Request)
    requires h.Lawful() && r.Valid() && AsciiText(r.prefix) && AsciiTokens(st)
    ensures AsciiText(HashTokens.Token(h, st, r)) && AsciiTokens(HashTokens.Next(h, st, r))
  {
    Base36IsAscii(HashTokens.BigEndian(h.sha(h.requestId + r.plaintext)[..4]), 4);
    ResolvedIsAscii(h, st.used, HashTokens.Base(h, r), r.plaintext, 0);
  }

  lemma PrefixIsAscii(t: PiiType)
    ensures AsciiText(t.HashTokenPrefix())
  {
  }

  lemma NameIsAscii(t: PiiType)
    ensures AsciiText(t.DisplayName())
  {
  }

  lemma RedactedIsAscii(t: PiiType)
    ensures AsciiText(Redacted(t))
  {
    NameIsAscii(t);
  }

  ghost predicate ValidTexts(rs: seq<Replacement>) {
    forall k | 0 <= k < |rs| :: Valid(rs[k].encrypted)
  }

  lemma StepIsValid(cfg: Config, o: Outcome, m: PiiMatch)
    requires cfg.Lawful() && Valid(m.rawValue) && AsciiTokens(o.tokens) && ValidTexts(o.replacements)
    ensures AsciiTokens(Step(cfg, o, m).tokens) && ValidTexts(Step(cfg, o, m).replacements)
  {
    match HandlingOf(cfg, m)
    case Encrypt(text) =>
    case Hash =>
      PrefixIsAscii(m.piiType);
      TokenIsAscii(cfg.h, o.tokens, RequestOf(m));
      AsciiIsValid(HashTokens.Token(cfg.h, o.tokens, RequestOf(m)));
    case Redact =>
      RedactedIsAscii(m.piiType);
      AsciiIsValid(Redacted(m.piiType));
    case Forward =>
  }

  lemma {:induction false} RunIsValid(cfg: Config, matches: seq<PiiMatch>)
    requires cfg.Lawful() && SoundValues(matches)
    ensures AsciiTokens(Run(cfg, matches).tokens) && ValidTexts(Run(cfg, matches).replacements)
    decreases |matches|
  {
    if matches != [] {
      RunIsValid(cfg, matches[..|matches| - 1]);
      StepIsValid(cfg, Run(cfg, matches[..|matches| - 1]), matches[|matches| - 1]);
    }
  }

  // ---- What the scan reports can be spliced ----

  lemma {:induction false} KeptAreMatches(cfg: Config, matches: seq<PiiMatch>)
    ensures forall m | m in Kept(cfg, matches) :: m in matches
    decreases |matches|
  {
    if matches != [] {
      KeptAreMatches(cfg, matches[..|matches| - 1]);
      assert matches == matches[..|matches| - 1] + [matches[|matches| - 1]];
    }
  }

  lemma {:induction false} KeptStayApart(cfg: Config, matches: seq<PiiMatch>, path: string)
    requires ApartOn(matches, path)
    ensures ApartOn(Kept(cfg, matches), path)
    decreases |matches|
  {
    if matches != [] {
      var front, last := matches[..|matches| - 1], matches[|matches| - 1];
      var kept := Kept(cfg, front);
      KeptStayApart(cfg, front, path);
      KeptAreMatches(cfg, front);
      forall k | 0 <= k < |kept| && kept[k].jsonPath == last.jsonPath == Some(path)
        ensures !Overlap(kept[k], last)
      {
        assert kept[k] in front;
        var j :| 0 <= j < |front| && front[j] == kept[k];
        assert matches[j] == kept[k];
      }
    }
  }

  lemma {:induction false} GroupIsApart(rs: seq<Replacement>, path: string)
    requires ApartOn(Originals(rs), path) && forall r | r in rs :: r.original.jsonPath.Some?
    ensures Sorting.Pairwise(SpansApart(), OnPath(rs, path))
    decreases |rs|
  {
    if rs != [] {
      var front, last := rs[..|rs| - 1], rs[|rs| - 1];
      var group := OnPath(front, path);
      assert forall k | 0 <= k < |front| :: Originals(rs)[k] == Originals(front)[k];
      GroupIsApart(front, path);
      OnPathMembers(front, path);
      if PathOf(last) == path {
        forall k | 0 <= k < |group|
          ensures SpansApart()(group[k], last)
        {
          assert group[k] in group;
          var j :| 0 <= j < |front| && front[j] == group[k];
          assert Originals(rs)[j] == group[k].original && Originals(rs)[|rs| - 1] == last.original;
        }
      }
    }
  }

  /** The strings of the body, each at its own place. */
  ghost predicate StringsOf(json: Value, leaves: seq<Leaf>) {
    LeavesOf(json, [], leaves) && PlacesDiffer(leaves) && ValidLeaves(leaves)
  }

  /** No string has a path that leads to another one. */
  ghost predicate NoneMisleads(json: Value, leaves: seq<Leaf>) {
    forall k | 0 <= k < |leaves| :: GoodPlace(leaves[k].place) || StringAt(json, Parse(leaves[k].path)).None?
  }

  /** The place leads to the text of the leaf, and, where keys survive printing, so does the path. */
  lemma LeafLeads(json: Value, leaf: Leaf)
    requires LeafOf(json, [], leaf)
    ensures StringAt(json, leaf.place) == Some(leaf.text)
    ensures GoodPlace(leaf.place) ==> Parse(leaf.path) == leaf.place
  {
    assert leaf.place[0..] == leaf.place;
    if GoodPlace(leaf.place) {
      PathRoundTrip(leaf.place);
    }
  }

  /** A path that leads to a string is the path of only one leaf, the one it leads to. */
  lemma StringHasOnePath(json: Value, leaves: seq<Leaf>, a: nat, b: nat)
    requires StringsOf(json, leaves) && NoneMisleads(json, leaves) && a < |leaves| && b < |leaves|
    requires StringAt(json, Parse(leaves[a].path)).Some? && Parse(leaves[a].path) == Parse(leaves[b].path)
    ensures a == b && Parse(leaves[a].path) == leaves[a].place
  {
    LeafLeads(json, leaves[a]);
    LeafLeads(json, leaves[b]);
    assert leaves[a].place == leaves[b].place;
  }

  lemma SpanOfPlaced(s: string, m: PiiMatch)
    requires Placed(s, m)
    ensures SpanOk(s, m)
  {
  }

  /** What the scan is known to report, and the loop over it to have replaced. */
  ghost predicate FromScan(leaves: seq<Leaf>, rs: seq<Replacement>) {
    && AllIn(leaves, Originals(rs)) && ValidTexts(rs)
    && forall path | OnlyOne(leaves, path) :: ApartOn(Originals(rs), path)
  }

  lemma LeafOfReplacement(leaves: seq<Leaf>, rs: seq<Replacement>, r: Replacement) returns (k: nat)
    requires FromScan(leaves, rs) && r in rs
    ensures k < |leaves| && Reported(leaves[k].text, leaves[k].path, r.original) && PathOf(r) == leaves[k].path
    ensures Valid(r.encrypted)
  {
    var i :| 0 <= i < |rs| && rs[i] == r;
    assert ReportedIn(leaves, Originals(rs)[i]);
    var j :| 0 <= j < |leaves| && Reported(leaves[j].text, leaves[j].path, r.original);
    k := j;
  }

  lemma AllHavePaths(sources: seq<Leaf>, rs: seq<Replacement>)
    requires FromScan(sources, rs)
    ensures forall r | r in rs :: r.original.jsonPath.Some?
  {
    forall r | r in rs
      ensures r.original.jsonPath.Some?
    {
      var j := LeafOfReplacement(sources, rs, r);
    }
  }

  lemma GroupFits(json: Value, leaves: seq<Leaf>, rs: seq<Replacement>, r: Replacement)
    requires StringsOf(json, leaves) && NoneMisleads(json, leaves) && FromScan(leaves, rs) && r in rs
    requires StringAt(json, PlaceOf(r)).Some?
    ensures Fits(StringAt(json, PlaceOf(r)).value, OnPath(rs, PathOf(r)))
    ensures forall q | q in rs && PlaceOf(q) == PlaceOf(r) :: PathOf(q) == PathOf(r)
  {
    var k := LeafOfReplacement(leaves, rs, r);
    var path := PathOf(r);
    StringHasOnePath(json, leaves, k, k);
    LeafLeads(json, leaves[k]);
    forall q | q in rs && PlaceOf(q) == PlaceOf(r)
      ensures PathOf(q) == path && SpanOk(leaves[k].text, q.original) && Valid(q.encrypted)
    {
      var j := LeafOfReplacement(leaves, rs, q);
      StringHasOnePath(json, leaves, k, j);
      SpanOfPlaced(leaves[j].text, q.original);
    }
    OnPathMembers(rs, path);
    assert OnlyOne(leaves, path) by {
      forall a, b | 0 <= a < b < |leaves| && leaves[a].path == path
        ensures leaves[b].path != path
      {
        if leaves[b].path == path {
          StringHasOnePath(json, leaves, a, b);
        }
      }
    }
    AllHavePaths(leaves, rs);
    GroupIsApart(rs, path);
  }

  /** What the scan reports can be applied if no path leads to another string than its own. */
  lemma ScannedIsApplicable(json: Value, leaves: seq<Leaf>, rs: seq<Replacement>)
    requires StringsOf(json, leaves) && NoneMisleads(json, leaves) && FromScan(leaves, rs)
    ensures Applicable(json, rs)
  {
    forall r | r in rs && StringAt(json, PlaceOf(r)).Some?
      ensures Fits(StringAt(json, PlaceOf(r)).value, OnPath(rs, PathOf(r)))
      ensures forall q | q in rs && PlaceOf(q) == PlaceOf(r) :: PathOf(q) == PathOf(r)
    {
      GroupFits(json, leaves, rs, r);
    }
  }

  /** The strings of the body in which something is found. */
  function Sources(c: Scanner, json: Value): seq<Leaf> {
    WithFindings(c, Leaves(c.skip, json, []))
  }

  lemma SourcesAreStrings(c: Scanner, json: Value)
    requires DistinctTree(json) && ValidTree(json)
    ensures StringsOf(json, Leaves(c.skip, json, [])) && StringsOf(json, Sources(c, json))
  {
    var leaves, sources := Leaves(c.skip, json, []), Sources(c, json);
    LeavesAreOf(c.skip, json, []);
    LeavesAreValid(c.skip, json, []);
    FindingsKeepPlaces(c, leaves);
    FindingsAreLeaves(c, leaves);
    forall k | 0 <= k < |sources|
      ensures LeafOf(json, [], sources[k]) && Valid(sources[k].text)
    {
      assert sources[k] in leaves;
    }
  }

  lemma ScanIsReplaced(c: Scanner, cfg: Config, json: Value)
    requires LawfulScanner(c) && cfg.Lawful() && DistinctTree(json) && ValidTree(json)
    ensures StringsOf(json, Sources(c, json))
    ensures FromScan(Sources(c, json), Run(cfg, Scanned(c, json)).replacements)
  {
    var sources, matches := Sources(c, json), Scanned(c, json);
    var rs, kept := Run(cfg, matches).replacements, Kept(cfg, matches);
    SourcesAreStrings(c, json);
    ScanIsSoundInFindings(c, json, "");
    InIsSound(sources, matches);
    RunIsValid(cfg, matches);
    ReplacementsKeepOrder(cfg, matches);
    KeptAreMatches(cfg, matches);
    forall k | 0 <= k < |kept|
      ensures ReportedIn(sources, kept[k])
    {
      assert kept[k] in kept;
      var j :| 0 <= j < |matches| && matches[j] == kept[k];
    }
    forall path | OnlyOne(sources, path)
      ensures ApartOn(kept, path)
    {
      ScanIsSoundInFindings(c, json, path);
      KeptStayApart(cfg, matches, path);
    }
  }

  /** Where no string with findings has a path that leads to another string than itself, what the scan reports
      and the loop keeps meets the precondition of the splicer, and the code never panics. */
  lemma ReplacementsApply(c: Scanner, cfg: Config, json: Value, result: Option<Value>)
    requires LawfulScanner(c) && cfg.Lawful() && DistinctTree(json) && ValidTree(json)
    requires NoneMisleads(json, Sources(c, json))
    ensures Applicable(json, Run(cfg, Scanned(c, json)).replacements)
    ensures InSomeOrder(json, Run(cfg, Scanned(c, json)).replacements, result) ==> result.Some?
  {
    var rs := Run(cfg, Scanned(c, json)).replacements;
    ScanIsReplaced(c, cfg, json);
    ScannedIsApplicable(json, Sources(c, json), rs);
    if InSomeOrder(json, rs, result) {
      ApplicableInAnyOrder(json, rs, result);
    }
  }

  lemma LeafIsGood(json: Value, leaf: Leaf)
    requires GoodTree(json) && LeafOf(json, [], leaf)
    ensures GoodPlace(leaf.place)
  {
    assert leaf.place[0..] == leaf.place;
    PlacesAreGood(json, leaf.place);
  }

  lemma AllGood(json: Value, leaves: seq<Leaf>)
    requires forall leaf | leaf in leaves :: GoodPlace(leaf.place)
    ensures NoneMisleads(json, leaves)
  {
    forall k | 0 <= k < |leaves|
      ensures GoodPlace(leaves[k].place)
    {
      assert leaves[k] in leaves;
    }
  }

  /** Where all keys survive printing, none does. */
  lemma GoodNeverMisleads(c: Scanner, json: Value)
    requires GoodTree(json)
    ensures NoneMisleads(json, Leaves(c.skip, json, [])) && NoneMisleads(json, Sources(c, json))
    ensures forall leaf | leaf in Sources(c, json) :: GoodPlace(leaf.place)
  {
    var leaves := Leaves(c.skip, json, []);
    GoodIsDistinct(json);
    LeavesAreOf(c.skip, json, []);
    FindingsAreLeaves(c, leaves);
    forall leaf | leaf in leaves
      ensures GoodPlace(leaf.place)
    {
      LeafIsGood(json, leaf);
    }
    AllGood(json, leaves);
    AllGood(json, Sources(c, json));
  }

  // ---- The text pass over a body ----

  /** Nothing to replace leaves the body as it is, in the only order there is. */
  lemma NothingToReplace(json: Value)
    ensures InSomeOrder(json, [], Some(json))
  {
    assert Enumerates([], Paths([])) && ApplyInTurn(json, [], []) == Some(json);
  }

  /** Scan, replace, splice, on any body; None where the code panics. In a body with distinct keys every string
      goes its own way, and where the replacements can be applied all of them are made at once. */
  method SanitizeText(c: Scanner, cfg: Config, json: Value)
    returns (result: Option<Value>, mappings: map<string, Mapping>, unprotected: nat)
    requires cfg.Lawful()
    ensures var o := Run(cfg, Scanned(c, json));
            && InSomeOrder(json, o.replacements, result) && mappings == o.mappings && unprotected == o.unprotected
            && (DistinctTree(json) ==> ComesOut(json, o.replacements, result))
            && (DistinctTree(json) && ValidTree(json) && Applicable(json, o.replacements) ==>
                  result.Some? && Sanitized(json, o.replacements, result.value))
  {
    var matches := ScanJson(c, json);
    ghost var rs := Run(cfg, matches).replacements;
    NothingToReplace(json);
    var replacements;
    mappings, replacements, unprotected := map[], [], 0;
    if matches != [] {
      mappings, replacements, unprotected := ReplaceMatches(cfg, matches);
    }
    result := Some(json);
    if replacements != [] {
      result := ApplyReplacements(json, replacements);
    }
    if DistinctTree(json) {
      OutcomeIsStringByString(json, rs, result);
      if ValidTree(json) && Applicable(json, rs) {
        ApplicableInAnyOrder(json, rs, result);
      }
    }
  }

  // ---- What comes out ----

  /** In the text with all replacements made, in order of their starts, the new value of one of them stands
      where its span stood, moved by the growth of those before it, right behind the unchanged text
      between the span before and its own. */
  ghost predicate Shows(s: string, up: seq<Replacement>, r: Replacement) {
    exists i :: 0 <= i < |up| && up[i] == r && Lays(s, Interleaved(s, up, 0), GapStart(up, 0, i), r, Growth(up[..i]))
  }

  lemma FittingShows(s: string, group: seq<Replacement>, r: Replacement)
    requires Fits(s, group) && r in group
    ensures Shows(s, InOrder(group), r)
  {
    InOrderAscends(s, group);
    InOrderHasAll(group);
    var up := InOrder(group);
    var i :| 0 <= i < |up| && up[i] == r;
    InterleavedLays(s, up, i);
  }

  lemma ReplacedStringAt(json: Value, rs: seq<Replacement>, result: Value, path: string)
    requires Sanitized(json, rs, result) && path in Paths(rs) && StringAt(json, Parse(path)).Some?
    ensures StringAt(result, Parse(path)) == Some(Replaced(json, rs, path))
  {
    var m :| Substitutes(json, rs, Paths(rs), m) && result == Rewrite(json, [], m);
    assert HoldsReplaced(json, rs, Paths(rs), m);
    StringInRewrite(json, m, Parse(path));
  }

  /** There is one such tree: the order in which the paths are visited leaves no trace. */
  lemma SanitizedIsUnique(json: Value, rs: seq<Replacement>, a: Value, b: Value)
    requires Sanitized(json, rs, a) && Sanitized(json, rs, b)
    ensures a == b
  {
    var m :| Substitutes(json, rs, Paths(rs), m) && a == Rewrite(json, [], m);
    var n :| Substitutes(json, rs, Paths(rs), n) && b == Rewrite(json, [], n);
    SubstitutesIsUnique(json, rs, Paths(rs), m, n);
  }

  /** No replacement reaches a string under a key that is empty or has a dot or an opening bracket in it,
      in any body, whatever was found there and in either fail mode. */
  lemma BadPlaceStays(json: Value, rs: seq<Replacement>, result: Option<Value>, p: Place)
    requires InSomeOrder(json, rs, result) && result.Some? && !GoodPlace(p)
    ensures StringAt(result.value, p) == StringAt(json, p)
  {
    forall r | r in rs
      ensures PlaceOf(r) != p
    {
      ParsedIsGood(PathOf(r), "");
    }
    OtherStringsStay(json, rs, result, p);
  }

  /** No string with findings has a path that leads to the string of the leaf, except the leaf itself. */
  predicate LedToByItself(sources: seq<Leaf>, leaf: Leaf) {
    forall other | other in sources && Parse(other.path) == leaf.place :: other == leaf
  }

  lemma OwnPathOnly(sources: seq<Leaf>, rs: seq<Replacement>, leaf: Leaf)
    requires FromScan(sources, rs) && LedToByItself(sources, leaf) && Parse(leaf.path) == leaf.place
    ensures OnlyPathTo(rs, leaf.path)
  {
    forall path | path in Paths(rs) && Parse(path) == Parse(leaf.path)
      ensures path == leaf.path
    {
      var r :| r in rs && PathOf(r) == path;
      var k := LeafOfReplacement(sources, rs, r);
      assert sources[k] == leaf;
    }
  }

  lemma OwnGroupFits(sources: seq<Leaf>, rs: seq<Replacement>, leaf: Leaf)
    requires PlacesDiffer(sources) && FromScan(sources, rs)
    requires LedToByItself(sources, leaf) && Parse(leaf.path) == leaf.place
    ensures Fits(leaf.text, OnPath(rs, leaf.path))
  {
    OnPathMembers(rs, leaf.path);
    forall q | q in OnPath(rs, leaf.path)
      ensures SpanOk(leaf.text, q.original) && Valid(q.encrypted)
    {
      var j := LeafOfReplacement(sources, rs, q);
      assert sources[j] == leaf;
      SpanOfPlaced(leaf.text, q.original);
    }
    forall a, b | 0 <= a < b < |sources| && sources[a].path == leaf.path
      ensures sources[b].path != leaf.path
    {
      assert sources[a] in sources && sources[b] in sources;
      assert sources[a] == leaf && sources[b].place != leaf.place;
    }
    AllHavePaths(sources, rs);
    GroupIsApart(rs, leaf.path);
  }

  /** Any string of any body the code does not panic on: under keys that do not survive printing it comes out
      as it went in; under keys that do, if no other string with findings has a path that leads to it, it
      comes out with all replacements on its own path made. What other strings do plays no role. */
  lemma OwnStringAfter(json: Value, sources: seq<Leaf>, rs: seq<Replacement>, result: Option<Value>, leaf: Leaf)
    requires StringsOf(json, sources) && FromScan(sources, rs) && InSomeOrder(json, rs, result) && result.Some?
    requires LeafOf(json, [], leaf) && Valid(leaf.text)
    ensures StringAt(json, leaf.place) == Some(leaf.text)
    ensures !GoodPlace(leaf.place) ==> StringAt(result.value, leaf.place) == Some(leaf.text)
    ensures GoodPlace(leaf.place) && LedToByItself(sources, leaf) ==>
              && Fits(leaf.text, OnPath(rs, leaf.path))
              && StringAt(result.value, leaf.place) == Some(Interleaved(leaf.text, InOrder(OnPath(rs, leaf.path)), 0))
  {
    LeafLeads(json, leaf);
    if !GoodPlace(leaf.place) {
      BadPlaceStays(json, rs, result, leaf.place);
    } else if LedToByItself(sources, leaf) {
      OwnPathOnly(sources, rs, leaf);
      OwnGroupFits(sources, rs, leaf);
      OnlyPathReplaces(json, rs, result, leaf.path, leaf.text);
    }
  }

  /** The replacement shows in its own string of the result, or that string has not changed at all. */
  ghost predicate DoneIn(leaf: Leaf, rs: seq<Replacement>, result: Value, r: Replacement) {
    var up := InOrder(OnPath(rs, leaf.path));
    if GoodPlace(leaf.place) then
      StringAt(result, leaf.place) == Some(Interleaved(leaf.text, up, 0)) && Shows(leaf.text, up, r)
    else
      StringAt(result, leaf.place) == Some(leaf.text)
  }

  lemma ReplacementDone(json: Value, sources: seq<Leaf>, rs: seq<Replacement>, result: Option<Value>, leaf: Leaf,
                        r: Replacement)
    requires StringsOf(json, sources) && FromScan(sources, rs) && InSomeOrder(json, rs, result) && result.Some?
    requires LeafOf(json, [], leaf) && Valid(leaf.text) && r in rs && PathOf(r) == leaf.path
    requires GoodPlace(leaf.place) ==> LedToByItself(sources, leaf)
    ensures DoneIn(leaf, rs, result.value, r)
  {
    OwnStringAfter(json, sources, rs, result, leaf);
    if GoodPlace(leaf.place) {
      OnPathMembers(rs, leaf.path);
      FittingShows(leaf.text, OnPath(rs, leaf.path), r);
    }
  }

  lemma InsideIff(rs: seq<Replacement>, path: string, up: seq<Replacement>, q: nat)
    requires up == InOrder(OnPath(rs, path)) && forall r | r in rs :: r.original.jsonPath.Some?
    ensures Inside(up, q) <==> InMatch(Originals(rs), path, q)
  {
    OnPathMembers(rs, path);
    InOrderHasAll(OnPath(rs, path));
    if k :| 0 <= k < |up| && up[k].original.start <= q < up[k].original.end {
      assert up[k] in up;
      var j :| 0 <= j < |rs| && rs[j] == up[k];
      assert Originals(rs)[j].jsonPath == Some(path);
    }
    if j :| 0 <= j < |rs| && Originals(rs)[j].jsonPath == Some(path)
            && q < rs[j].original.end && q + 1 > rs[j].original.start {
      assert rs[j] in up;
    }
  }

  /** What is left of a string with such keys, when the new values are taken out of it again: exactly the bytes
      that lie in no match on its path, or in one that was forwarded. */
  lemma WhatIsLeft(c: Scanner, cfg: Config, json: Value, result: Option<Value>, leaf: Leaf, up: seq<Replacement>)
    requires LawfulScanner(c) && cfg.Lawful() && DistinctTree(json) && ValidTree(json)
    requires InSomeOrder(json, Run(cfg, Scanned(c, json)).replacements, result) && result.Some?
    requires LeafOf(json, [], leaf) && GoodPlace(leaf.place) && LedToByItself(Sources(c, json), leaf)
    requires up == InOrder(OnPath(Run(cfg, Scanned(c, json)).replacements, leaf.path))
    ensures StringAt(result.value, leaf.place) == Some(Interleaved(leaf.text, up, 0))
    ensures Interleaved(leaf.text, Emptied(up), 0) == Outside(leaf.text, up, 0)
    ensures forall q: nat :: Inside(up, q) <==> InMatch(Kept(cfg, Scanned(c, json)), leaf.path, q)
    ensures cfg.mode == Closed ==> Kept(cfg, Scanned(c, json)) == Scanned(c, json)
  {
    var sources, matches := Sources(c, json), Scanned(c, json);
    var rs := Run(cfg, matches).replacements;
    ScanIsReplaced(c, cfg, json);
    LeafLeads(json, leaf);
    StringsAreValid(json, leaf.place);
    OwnStringAfter(json, sources, rs, result, leaf);
    InOrderAscends(leaf.text, OnPath(rs, leaf.path));
    AscendingSpans(leaf.text, up);
    OnlyOutsideIsLeft(leaf.text, up, 0);
    ReplacementsKeepOrder(cfg, matches);
    forall q: nat
      ensures Inside(up, q) <==> InMatch(Kept(cfg, matches), leaf.path, q)
    {
      AllHavePaths(sources, rs);
      InsideIff(rs, leaf.path, up, q);
    }
    if cfg.mode == Closed {
      ClosedKeepsAll(cfg, matches);
    }
  }

  /** The replacement of a match that is not forwarded, and a string with its path it was found in. */
  lemma LeafOfMatch(c: Scanner, cfg: Config, json: Value, matches: seq<PiiMatch>, k: nat, r: Replacement)
    returns (j: nat)
    requires LawfulScanner(c) && cfg.Lawful() && DistinctTree(json) && ValidTree(json)
    requires matches == Scanned(c, json) && k < |matches|
    requires !Forwards(cfg, matches[k])
    requires r == Replacement(matches[k], TextOf(cfg, matches, k))
    ensures r in Run(cfg, matches).replacements
    ensures var sources := Sources(c, json);
            j < |sources| && Reported(sources[j].text, sources[j].path, r.original) && PathOf(r) == sources[j].path
  {
    ScanIsReplaced(c, cfg, json);
    ReplacementOfMatch(cfg, matches, k);
    j := LeafOfReplacement(Sources(c, json), Run(cfg, matches).replacements, r);
  }

  /** Every match that is not forwarded, and failing closed none is, was found in some string of the body.
      A string with the path of the match comes out as it went in if the keys on the way to it do not survive
      printing. If they do, and no other string with findings has a path that leads to it, it comes out as
      the gaps between the replaced spans and the new values in turn, the new value of the match among
      them. Nothing is asked of the other strings. */
  lemma EveryMatchIsReplacedIff(c: Scanner, cfg: Config, json: Value, matches: seq<PiiMatch>, result: Option<Value>,
                                k: nat)
    requires LawfulScanner(c) && cfg.Lawful() && DistinctTree(json) && ValidTree(json)
    requires matches == Scanned(c, json) && k < |matches|
    requires InSomeOrder(json, Run(cfg, matches).replacements, result) && result.Some?
    requires !Forwards(cfg, matches[k])
    ensures ReportedIn(Sources(c, json), matches[k])
    ensures var leaves, r := Leaves(c.skip, json, []), Replacement(matches[k], TextOf(cfg, matches, k));
            forall j | 0 <= j < |leaves| && matches[k].jsonPath == Some(leaves[j].path)
                       && (GoodPlace(leaves[j].place) ==> LedToByItself(Sources(c, json), leaves[j])) ::
              DoneIn(leaves[j], Run(cfg, matches).replacements, result.value, r)
  {
    var leaves, rs := Leaves(c.skip, json, []), Run(cfg, matches).replacements;
    var r := Replacement(matches[k], TextOf(cfg, matches, k));
    var i := LeafOfMatch(c, cfg, json, matches, k, r);
    ScanIsReplaced(c, cfg, json);
    SourcesAreStrings(c, json);
    forall j | 0 <= j < |leaves| && matches[k].jsonPath == Some(leaves[j].path)
               && (GoodPlace(leaves[j].place) ==> LedToByItself(Sources(c, json), leaves[j]))
      ensures DoneIn(leaves[j], rs, result.value, r)
    {
      ReplacementDone(json, Sources(c, json), rs, result, leaves[j], r);
    }
  }

  /** Strings with findings and a path that leads to p lie under keys that survive printing. */
  ghost predicate GoodAt(sources: seq<Leaf>, p: Place) {
    forall leaf | leaf in sources && Parse(leaf.path) == p :: GoodPlace(leaf.place)
  }

  lemma GoodIsAlone(json: Value, sources: seq<Leaf>, j: nat)
    requires StringsOf(json, sources) && j < |sources| && GoodAt(sources, Parse(sources[j].path))
    ensures GoodPlace(sources[j].place) && Parse(sources[j].path) == sources[j].place
    ensures LedToByItself(sources, sources[j])
  {
    assert sources[j] in sources;
    LeafLeads(json, sources[j]);
    forall other | other in sources && Parse(other.path) == sources[j].place
      ensures other == sources[j]
    {
      var i :| 0 <= i < |sources| && sources[i] == other;
      LeafLeads(json, sources[i]);
      assert sources[i].place == sources[j].place;
    }
  }

  /** A match not forwarded shows in the string its path leads to, which reads as the gaps between the replaced
      spans and the new values in turn, as long as the strings with findings whose paths lead there lie
      under keys that survive printing; and the code does not panic if no string with findings has a path
      that leads to another. */
  lemma EveryMatchIsReplaced(c: Scanner, cfg: Config, json: Value, matches: seq<PiiMatch>, result: Option<Value>,
                             k: nat)
    requires LawfulScanner(c) && cfg.Lawful() && DistinctTree(json) && ValidTree(json)
    requires matches == Scanned(c, json) && k < |matches|
    requires InSomeOrder(json, Run(cfg, matches).replacements, result)
    requires result.Some? || NoneMisleads(json, Sources(c, json))
    requires !Forwards(cfg, matches[k])
    requires matches[k].jsonPath.Some? ==> GoodAt(Sources(c, json), Parse(matches[k].jsonPath.value))
    ensures var r, rs := Replacement(matches[k], TextOf(cfg, matches, k)), Run(cfg, matches).replacements;
            var s, up := StringAt(json, PlaceOf(r)), InOrder(OnPath(rs, PathOf(r)));
            && result.Some? && s.Some? && Placed(s.value, matches[k])
            && StringAt(result.value, PlaceOf(r)) == Some(Interleaved(s.value, up, 0)) && Shows(s.value, up, r)
  {
    var sources, rs := Sources(c, json), Run(cfg, matches).replacements;
    var r := Replacement(matches[k], TextOf(cfg, matches, k));
    if result.None? {
      ReplacementsApply(c, cfg, json, result);
    }
    ScanIsReplaced(c, cfg, json);
    var j := LeafOfMatch(c, cfg, json, matches, k, r);
    GoodIsAlone(json, sources, j);
    LeafLeads(json, sources[j]);
    ReplacementDone(json, sources, rs, result, sources[j], r);
  }
}
