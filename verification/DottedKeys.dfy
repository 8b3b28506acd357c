/** Bodies with a key that does not survive printing (hybrid_scanner.rs, body.rs). */
module DottedKeys {
  import opened Text
  import opened Utf8
  import opened Pii
  import opened Json
  import opened JsonRewrite
  import opened JsonScan
  import opened JsonMatches
  import opened HiddenNames
  import opened Splice
  import opened RequestBody
  import opened Sanitize
  import opened TextScan

  function DottedJson(): Value {
    Obj([Field("a.b", Str(NAME))])
  }

  lemma DottedLeaves(json: Value)
    requires json.Obj? && |json.fields| > 0 && json.fields[0] == Field("a.b", Str(NAME)) && !IsBase64Source(json.fields)
    ensures LeavesAt([], json, [], 0) == [Leaf([Key("a.b")], "a.b", NAME)]
  {
    PrintKeys("a.b", "");
    assert [] + [Key("a.b")] == [Key("a.b")];
  }

  lemma DottedWalked()
    ensures Fold(NameScanner(), [Leaf([Key("a.b")], "a.b", NAME)], 0, []) == [NameMatch(0, Some("a.b"))]
  {
    var leaf := Leaf([Key("a.b")], "a.b", NAME);
    FoldSnoc(NameScanner(), [], leaf, 0, []);
    assert [] + [leaf] == [leaf];
    ScanOfName(NESTED, Arr([Str(NAME)]), leaf, 0, []);
  }

  lemma DottedScanned()
    ensures Leaves([], DottedJson(), []) == [Leaf([Key("a.b")], "a.b", NAME)]
    ensures Scanned(NameScanner(), DottedJson()) == [NameMatch(0, Some("a.b"))]
  {
    var json := DottedJson();
    assert !IsBase64Source(json.fields);
    DottedLeaves(json);
    DottedWalked();
    assert LeavesTo([], json, [], 1) == LeavesTo([], json, [], 0) + LeavesAt([], json, [], 0);
    assert LeavesTo([], json, [], 0) == [];
    assert EntriesTo([], json, 1) == EntriesTo([], json, 0) + [Entry([Key("a.b")], Str(NAME))];
  }

  lemma DottedPath()
    ensures Parse("a.b") == [Key("a"), Key("b")] && Print([Key("a"), Key("b")]) == "a.b"
    ensures !GoodPlace([Key("a.b")]) && GoodPlace([Key("a"), Key("b")])
  {
    var p := [Key("a"), Key("b")];
    PrintKeys("a", "b");
    assert "a" + "." + "b" == "a.b";
    assert GoodSegment(Key("a")) && GoodSegment(Key("b"));
    PathRoundTrip(p);
    assert "a.b"[1] == '.';
    assert Key("a.b") in [Key("a.b")];
  }

  lemma OnePath(rs: seq<Replacement>, path: string)
    requires |rs| == 1 && PathOf(rs[0]) == path
    ensures Paths(rs) == {path}
  {
    assert rs[0] in rs;
  }

  /** A name has no format-preserving encryption: it is replaced by a token in either fail mode. */
  lemma NameIsReplaced(cfg: Config, m: PiiMatch)
    requires cfg.Lawful() && m == NameMatch(0, Some("a.b"))
    ensures var rs := Run(cfg, [m]).replacements;
            |rs| == 1 && rs[0].original == m && Valid(rs[0].encrypted) && Paths(rs) == {"a.b"}
  {
    NameIsPlaced();
    assert m.rawValue == NAME && Placed(NAME, m);
    RunSnoc(cfg, [], m);
    assert [] + [m] == [m];
    RunIsValid(cfg, [m]);
    OnePath(Run(cfg, [m]).replacements, "a.b");
  }

  lemma NothingLedTo(json: Value, rs: seq<Replacement>, path: string, result: Value)
    requires Sanitized(json, rs, result) && Paths(rs) == {path} && StringAt(json, Parse(path)) == None
    ensures result == json
  {
    var m :| Substitutes(json, rs, Paths(rs), m) && result == Rewrite(json, [], m);
    forall q
      ensures q !in m
    {
      assert q in m ==> LeadsTo(json, Paths(rs), q);
    }
    assert m == map[];
    RewriteNothing(json, []);
  }

  lemma NothingAtPath()
    ensures StringAt(DottedJson(), Parse("a.b")) == None
  {
    DottedPath();
    assert "a.b" != "a";
    assert Child(DottedJson(), Key("a")) == None;
  }

  lemma OneField(key: string, s: string)
    requires Valid(s)
    ensures DistinctTree(Obj([Field(key, Str(s))])) && ValidTree(Obj([Field(key, Str(s))]))
  {
  }

  lemma OneLeafMisleadsNot(json: Value, leaf: Leaf)
    requires StringAt(json, Parse(leaf.path)) == None
    ensures NoneMisleads(json, [leaf])
  {
  }

  lemma DottedTree()
    ensures DistinctTree(DottedJson()) && ValidTree(DottedJson())
    ensures NoneMisleads(DottedJson(), Leaves([], DottedJson(), []))
  {
    AsciiIsValid(NAME);
    OneField("a.b", NAME);
    DottedScanned();
    NothingAtPath();
    OneLeafMisleadsNot(DottedJson(), Leaf([Key("a.b")], "a.b", NAME));
  }

  lemma NowhereIsApplicable(json: Value, rs: seq<Replacement>, path: string)
    requires Paths(rs) == {path} && StringAt(json, Parse(path)) == None
    ensures Applicable(json, rs)
  {
    forall r | r in rs
      ensures StringAt(json, PlaceOf(r)).None?
    {
      assert PathOf(r) in Paths(rs);
    }
  }

  /** The scan finds the name and the loop makes a new value for it, and yet the body stays as it was. */
  lemma DottedNameStays(cfg: Config, rs: seq<Replacement>, result: Option<Value>)
    requires cfg.Lawful() && rs == Run(cfg, Scanned(NameScanner(), DottedJson())).replacements
    requires InSomeOrder(DottedJson(), rs, result)
    ensures LawfulScanner(NameScanner()) && NoneMisleads(DottedJson(), Leaves([], DottedJson(), []))
    ensures Scanned(NameScanner(), DottedJson()) == [NameMatch(0, Some("a.b"))] && |rs| == 1
    ensures result == Some(DottedJson())
  {
    NameScannerIsLawful();
    DottedScanned();
    DottedTree();
    NothingAtPath();
    NameIsReplaced(cfg, NameMatch(0, Some("a.b")));
    NowhereIsApplicable(DottedJson(), rs, "a.b");
    ApplicableInAnyOrder(DottedJson(), rs, result);
    NothingLedTo(DottedJson(), rs, "a.b", result.value);
  }

  // ---- A path that leads to another string ----

  /** The dotted key beside a nested one with the same path. */
  function CollidingJson(other: string): Value {
    Obj([Field("a.b", Str(NAME)), Field("a", Obj([Field("b", Str(other))]))])
  }

  /** A text in which nothing is found. */
  predicate PlainText(s: string) {
    s != "" && s[0] !in "[{dbB"
  }

  lemma PlainHasNothing(leaf: Leaf, acc: seq<PiiMatch>)
    requires PlainText(leaf.text)
    ensures ScanLeaf(NameScanner(), leaf, 0, acc) == acc
  {
    var s := leaf.text;
    assert NAME[0] == 'B' && s != NAME;
    assert s[..1][0] == s[0] && !LooksLikeJson(s);
    assert Inner(NameScanner(), s, 0) == [];
    assert acc + WithPath([], leaf.path) == acc;
  }

  lemma PlainIsScanned(key: string, s: string)
    requires PlainText(s)
    ensures !IsDataUri(s) && !IsBase64Source([Field(key, Str(s))])
  {
    assert s[0] != "data:image/"[0] && s[0] != "base64"[0];
    if |s| >= 11 {
      assert s[..11][0] == s[0];
    }
  }

  lemma LeavesOfOneField(key: string, s: string, base: Place)
    requires !IsBase64Source([Field(key, Str(s))]) && !IsDataUri(s)
    ensures Leaves([], Obj([Field(key, Str(s))]), base) == [LeafUnder(base, key, s)]
  {
    var json := Obj([Field(key, Str(s))]);
    assert LeavesAt([], json, base, 0) == Leaves([], Str(s), base + [Key(key)]) == [LeafUnder(base, key, s)];
    assert LeavesTo([], json, base, 1) == LeavesTo([], json, base, 0) + LeavesAt([], json, base, 0);
    assert LeavesTo([], json, base, 0) == [];
  }

  lemma CollidingLeaves(other: string)
    requires PlainText(other)
    ensures LeavesAt([], CollidingJson(other), [], 0) == [Leaf([Key("a.b")], "a.b", NAME)]
    ensures LeavesAt([], CollidingJson(other), [], 1) == [LeafUnder([Key("a")], "b", other)]
  {
    var json := CollidingJson(other);
    assert !IsBase64Source(json.fields);
    DottedLeaves(json);
    PlainIsScanned("b", other);
    LeavesOfOneField("b", other, [Key("a")]);
    assert [] + [Key("a")] == [Key("a")];
  }

  lemma TwoEntries(v: Value)
    requires v.Obj? && Arity(v) == 2 && !IsBase64Source(v.fields)
    ensures |Entries([], v)| == 2
  {
    assert EntriesTo([], v, 1) == EntriesTo([], v, 0) + [Entry([SegmentAt(v, 0)], ChildAt(v, 0))];
    assert EntriesTo([], v, 2) == EntriesTo([], v, 1) + [Entry([SegmentAt(v, 1)], ChildAt(v, 1))];
  }

  lemma PlainIsWalked(leaf: Leaf)
    requires PlainText(leaf.text)
    ensures Fold(NameScanner(), [leaf], 0, []) == []
  {
    FoldSnoc(NameScanner(), [], leaf, 0, []);
    assert [] + [leaf] == [leaf];
    PlainHasNothing(leaf, []);
  }

  lemma CollidingScanned(other: string)
    requires PlainText(other)
    ensures Scanned(NameScanner(), CollidingJson(other)) == [NameMatch(0, Some("a.b"))]
  {
    var c, json, leaf := NameScanner(), CollidingJson(other), LeafUnder([Key("a")], "b", other);
    CollidingLeaves(other);
    DottedWalked();
    PlainIsWalked(leaf);
    SpreadOfTwo(c, json);
    assert !IsBase64Source(json.fields);
    TwoEntries(json);
  }

  lemma CollidingStrings(other: string)
    ensures StringAt(CollidingJson(other), [Key("a.b")]) == Some(NAME)
    ensures Locate(CollidingJson(other), [Key("a"), Key("b")]) == Some(Str(other))
  {
    var json, p := CollidingJson(other), [Key("a"), Key("b")];
    var q := [Key("a.b")];
    assert q[0] == Key("a.b") && q[1..] == [] && Child(json, q[0]) == Some(Str(NAME));
    assert Locate(json, q) == Locate(Str(NAME), q[1..]);
    FieldIndexOfDistinct(json.fields, 1);
    var inner := Obj([Field("b", Str(other))]);
    assert Child(json, p[0]) == Some(inner) && p[1..] == [Key("b")];
    assert Child(inner, [Key("b")][0]) == Some(Str(other)) && [Key("b")][1..] == [];
    assert Locate(inner, [Key("b")]) == Locate(Str(other), []);
  }

  lemma CollidingTree(other: string)
    requires Valid(other)
    ensures DistinctTree(CollidingJson(other)) && ValidTree(CollidingJson(other))
  {
    AsciiIsValid(NAME);
    OneField("b", other);
    assert "a.b"[0] == "a"[0] && |"a.b"| != |"a"|;
  }

  lemma OneOnPath(rs: seq<Replacement>, path: string)
    requires |rs| == 1 && PathOf(rs[0]) == path
    ensures OnPath(rs, path) == rs
  {
    assert rs[..0] == [];
    assert OnPath(rs, path) == OnPath([], path) + [rs[0]];
  }

  lemma OneInOrder(rs: seq<Replacement>)
    requires |rs| == 1
    ensures InOrder(rs) == rs
  {
    InOrderHasAll(rs);
    assert InOrder(rs)[0] in InOrder(rs);
  }

  ghost predicate OneForName(rs: seq<Replacement>) {
    && |rs| == 1 && rs[0].original == NameMatch(0, Some("a.b")) && Valid(rs[0].encrypted)
    && Paths(rs) == {"a.b"} && OnPath(rs, "a.b") == rs
  }

  /** What the loop over the matches of a colliding body makes. */
  lemma CollidingReplaced(cfg: Config, other: string, rs: seq<Replacement>)
    requires cfg.Lawful() && PlainText(other)
    requires rs == Run(cfg, Scanned(NameScanner(), CollidingJson(other))).replacements
    ensures Scanned(NameScanner(), CollidingJson(other)) == [NameMatch(0, Some("a.b"))] && OneForName(rs)
  {
    CollidingScanned(other);
    NameIsReplaced(cfg, NameMatch(0, Some("a.b")));
    OneOnPath(rs, "a.b");
  }

  const OTHER := "Carol"

  lemma OtherIsPlain()
    ensures PlainText(OTHER) && Valid(OTHER)
  {
    AsciiIsValid(OTHER);
    assert OTHER[0] == 'C';
  }

  lemma FitsOther(rs: seq<Replacement>)
    requires |rs| == 1 && rs[0].original == NameMatch(0, Some("a.b")) && Valid(rs[0].encrypted)
    ensures Fits(OTHER, rs)
  {
    assert Ascii(OTHER[0]) && Ascii(OTHER[3]);
  }

  lemma OneInterleaved(s: string, r: Replacement)
    requires r.original.start == 0 && r.original.end <= |s|
    ensures Interleaved(s, [r], 0) == r.encrypted + s[r.original.end..]
  {
    assert [r][1..] == [] && s[0..0] == "";
    assert "" + r.encrypted == r.encrypted;
  }

  lemma OtherFits(json: Value, rs: seq<Replacement>, path: string, s: string)
    requires |rs| == 1 && PathOf(rs[0]) == path && OnPath(rs, path) == rs
    requires StringAt(json, Parse(path)) == Some(s) && Fits(s, rs)
    ensures Applicable(json, rs) && Replaced(json, rs, path) == Interleaved(s, rs, 0)
  {
    OneInOrder(rs);
  }

  lemma LandsInOther(rs: seq<Replacement>)
    requires OneForName(rs)
    ensures Applicable(CollidingJson(OTHER), rs) && StringAt(CollidingJson(OTHER), Parse("a.b")) == Some(OTHER)
    ensures Replaced(CollidingJson(OTHER), rs, "a.b") == rs[0].encrypted + "ol"
  {
    CollidingStrings(OTHER);
    DottedPath();
    FitsOther(rs);
    OtherFits(CollidingJson(OTHER), rs, "a.b", OTHER);
    OneInterleaved(OTHER, rs[0]);
    assert rs == [rs[0]] && OTHER[3..] == "ol";
  }

  lemma NameStaysOtherChanges(rs: seq<Replacement>, result: Option<Value>)
    requires OneForName(rs) && InSomeOrder(CollidingJson(OTHER), rs, result)
    ensures result.Some? && StringAt(result.value, [Key("a.b")]) == Some(NAME)
    ensures StringAt(result.value, [Key("a"), Key("b")]) == Some(rs[0].encrypted + "ol")
  {
    var json := CollidingJson(OTHER);
    OtherIsPlain();
    CollidingTree(OTHER);
    CollidingStrings(OTHER);
    DottedPath();
    LandsInOther(rs);
    ApplicableInAnyOrder(json, rs, result);
    BadPlaceStays(json, rs, result, [Key("a.b")]);
    assert "a.b" in Paths(rs);
    ReplacedStringAt(json, rs, result.value, "a.b");
  }

  /** The new value for the name lands in another string, and the name itself stays. */
  lemma OtherStringIsOverwritten(cfg: Config, rs: seq<Replacement>, result: Option<Value>)
    requires cfg.Lawful() && rs == Run(cfg, Scanned(NameScanner(), CollidingJson(OTHER))).replacements
    requires InSomeOrder(CollidingJson(OTHER), rs, result)
    ensures Scanned(NameScanner(), CollidingJson(OTHER)) == [NameMatch(0, Some("a.b"))] && |rs| == 1
    ensures DistinctTree(CollidingJson(OTHER)) && ValidTree(CollidingJson(OTHER))
    ensures Applicable(CollidingJson(OTHER), rs)
    ensures result.Some? && StringAt(result.value, [Key("a.b")]) == Some(NAME)
    ensures StringAt(CollidingJson(OTHER), [Key("a"), Key("b")]) == Some(OTHER)
    ensures StringAt(result.value, [Key("a"), Key("b")]) == Some(rs[0].encrypted + "ol")
  {
    OtherIsPlain();
    CollidingTree(OTHER);
    CollidingReplaced(cfg, OTHER, rs);
    CollidingStrings(OTHER);
    LandsInOther(rs);
    NameStaysOtherChanges(rs, result);
  }

  // ---- A path that leads into a character ----

  /** Two characters of two bytes each. */
  const ACCENTED: string := [0xC3 as char, 0xA9 as char, 0xC3 as char, 0xA9 as char]

  lemma AccentedIsPlain()
    ensures PlainText(ACCENTED) && Valid(ACCENTED) && !Boundary(ACCENTED, 3)
  {
    assert ACCENTED[2..][2..] == [] && FirstLength(ACCENTED[2..]) == 2;
    assert FirstLength(ACCENTED) == 2;
  }

  lemma OneSpliced(s: string, rs: seq<Replacement>)
    requires |rs| == 1
    ensures SpliceAll(s, Sorting.Sort(Later(), rs)) == SpliceOne(s, rs[0])
  {
    var sorted := Sorting.Sort(Later(), rs);
    Sorting.SortKeeps(Later(), rs);
    Sorting.SortMembers(Later(), rs);
    assert sorted[0] in sorted && sorted[..0] == [];
  }

  lemma PanicsWithOnlyPath(json: Value, rs: seq<Replacement>, path: string, s: string, result: Option<Value>)
    requires Paths(rs) == {path} && StringAt(json, Parse(path)) == Some(s) && InSomeOrder(json, rs, result)
    ensures result == None <==> SpliceAll(s, Sorting.Sort(Later(), OnPath(rs, path))) == None
  {
    var order :| Enumerates(order, Paths(rs)) && result == ApplyInTurn(json, rs, order);
    assert forall other | other in order :: other == path;
    assert path in order;
    OnlyPathInTurn(s, rs, order, path);
    PanicsIff(json, rs, order);
    assert Stuck(json, rs, order, Parse(path)) <==> SpliceAll(s, Sorting.Sort(Later(), OnPath(rs, path))) == None;
    forall p | p != Parse(path) && StringAt(json, p).Some?
      ensures !Stuck(json, rs, order, p)
    {
      NoPathInTurn(StringAt(json, p).value, rs, order, p);
    }
  }

  /** Where the span of a match ends inside a character of the string its path leads to, the code panics. */
  lemma SpanInCharacterPanics(cfg: Config, rs: seq<Replacement>, result: Option<Value>)
    requires cfg.Lawful() && rs == Run(cfg, Scanned(NameScanner(), CollidingJson(ACCENTED))).replacements
    requires InSomeOrder(CollidingJson(ACCENTED), rs, result)
    ensures Scanned(NameScanner(), CollidingJson(ACCENTED)) == [NameMatch(0, Some("a.b"))] && |rs| == 1
    ensures DistinctTree(CollidingJson(ACCENTED)) && ValidTree(CollidingJson(ACCENTED))
    ensures result == None
  {
    var json := CollidingJson(ACCENTED);
    AccentedIsPlain();
    CollidingTree(ACCENTED);
    CollidingReplaced(cfg, ACCENTED, rs);
    CollidingStrings(ACCENTED);
    DottedPath();
    OneSpliced(ACCENTED, rs);
    PanicsWithOnlyPath(json, rs, "a.b", ACCENTED, result);
  }

  // ---- A path that leads to a string too short for the span ----

  const SHORT := "x"

  lemma ShortIsPlain()
    ensures PlainText(SHORT) && Valid(SHORT)
  {
    AsciiIsValid(SHORT);
    assert SHORT[0] == 'x';
  }

  lemma ShortIsPassedOver(rs: seq<Replacement>)
    requires OneForName(rs)
    ensures SpliceAll(SHORT, Sorting.Sort(Later(), OnPath(rs, "a.b"))) == Some(SHORT)
  {
    OneSpliced(SHORT, rs);
    assert rs[0].original.end == 3 > |SHORT|;
  }

  /** Where the span of a match ends behind the string its path leads to, the code goes on without replacing
      anything, and both strings stay. */
  lemma SpanBehindEndIsSkipped(cfg: Config, rs: seq<Replacement>, result: Option<Value>)
    requires cfg.Lawful() && rs == Run(cfg, Scanned(NameScanner(), CollidingJson(SHORT))).replacements
    requires InSomeOrder(CollidingJson(SHORT), rs, result)
    ensures Scanned(NameScanner(), CollidingJson(SHORT)) == [NameMatch(0, Some("a.b"))] && |rs| == 1
    ensures result.Some? && StringAt(result.value, [Key("a.b")]) == Some(NAME)
    ensures StringAt(result.value, [Key("a"), Key("b")]) == Some(SHORT)
  {
    var json := CollidingJson(SHORT);
    ShortIsPlain();
    CollidingTree(SHORT);
    CollidingReplaced(cfg, SHORT, rs);
    CollidingStrings(SHORT);
    DottedPath();
    ShortIsPassedOver(rs);
    PanicsWithOnlyPath(json, rs, "a.b", SHORT, result);
    OnlyPathReplaces(json, rs, result, "a.b", SHORT);
    BadPlaceStays(json, rs, result, [Key("a.b")]);
  }

  // ---- Two strings with one path ----

  lemma LooksAlike(leaf: Leaf)
    requires leaf.text == NAME
    ensures Fold(NameScanner(), [leaf], 0, []) == [NameMatch(0, Some(leaf.path))]
  {
    FoldSnoc(NameScanner(), [], leaf, 0, []);
    assert [] + [leaf] == [leaf];
    ScanOfName(NESTED, Arr([Str(NAME)]), leaf, 0, []);
  }

  lemma TwinLeaves()
    ensures LeavesAt([], CollidingJson(NAME), [], 0) == [Leaf([Key("a.b")], "a.b", NAME)]
    ensures LeavesAt([], CollidingJson(NAME), [], 1) == [Leaf([Key("a"), Key("b")], "a.b", NAME)]
  {
    var json := CollidingJson(NAME);
    assert !IsBase64Source(json.fields) && !IsBase64Source([Field("b", Str(NAME))]);
    DottedLeaves(json);
    LeavesOfOneField("b", NAME, [Key("a")]);
    DottedPath();
    assert [] + [Key("a")] == [Key("a")] && [Key("a")] + [Key("b")] == [Key("a"), Key("b")];
  }

  lemma TwinsScanned()
    ensures Scanned(NameScanner(), CollidingJson(NAME)) == [NameMatch(0, Some("a.b")), NameMatch(0, Some("a.b"))]
  {
    var c, json := NameScanner(), CollidingJson(NAME);
    var a, b := Leaf([Key("a.b")], "a.b", NAME), Leaf([Key("a"), Key("b")], "a.b", NAME);
    TwinLeaves();
    LooksAlike(a);
    LooksAlike(b);
    SpreadOfGroups(c, json, a, b, NameMatch(0, Some("a.b")), NameMatch(0, Some("a.b")));
    assert !IsBase64Source(json.fields);
    TwoEntries(json);
  }

  /** Nothing has been handed out, so the first token is the base. */
  lemma FirstToken(h: HashTokens.Hasher, r: HashTokens.Request)
    requires h.Lawful() && r.Valid()
    ensures HashTokens.Token(h, HashTokens.EMPTY, r) == HashTokens.Base(h, r)
    ensures HashTokens.Token(h, HashTokens.Next(h, HashTokens.EMPTY, r), r) == HashTokens.Base(h, r)
  {
    assert HashTokens.Candidate(HashTokens.Base(h, r), 0) == HashTokens.Base(h, r);
  }

  /** Equal matches get the same token. */
  lemma TwinsReplaced(cfg: Config, m: PiiMatch, rs: seq<Replacement>, t: string)
    requires cfg.Lawful() && m == NameMatch(0, Some("a.b")) && rs == Run(cfg, [m, m]).replacements
    requires t == HashTokens.Base(cfg.h, RequestOf(m))
    ensures rs == [Replacement(m, t), Replacement(m, t)] && |t| == 8 && Valid(t) && AsciiText(t)
  {
    var one := Run(cfg, [m]);
    assert [] + [m] == [m] && [m] + [m] == [m, m];
    RunSnoc(cfg, [], m);
    RunSnoc(cfg, [m], m);
    FirstToken(cfg.h, RequestOf(m));
    PrefixIsAscii(m.piiType);
    TokenIsAscii(cfg.h, HashTokens.EMPTY, RequestOf(m));
    AsciiIsValid(t);
  }

  lemma TwinsSpliced(rs: seq<Replacement>, r: Replacement, t: string)
    requires rs == [r, r] && r == Replacement(NameMatch(0, Some("a.b")), t) && |t| == 8 && AsciiText(t)
    ensures SpliceAll(NAME, Sorting.Sort(Later(), rs)) == Some(t + t[3..])
  {
    var sorted := Sorting.Sort(Later(), rs);
    Sorting.SortKeeps(Later(), rs);
    Sorting.SortMembers(Later(), rs);
    assert sorted[0] in sorted && sorted[1] in sorted;
    assert sorted[..1][..0] == [] && sorted[..1][0] == r && sorted[..0] == [];
    assert NAME[..0] + t + NAME[3..] == t && t[..0] + t + t[3..] == t + t[3..];
    assert Ascii(t[0]) && Ascii(t[3]);
    assert SpliceOne(NAME, r) == Some(t);
    assert SpliceAll(NAME, sorted[..1]) == Some(t);
  }

  lemma TwinsOnPath(rs: seq<Replacement>, r: Replacement)
    requires rs == [r, r] && PathOf(r) == "a.b"
    ensures OnPath(rs, "a.b") == rs && Paths(rs) == {"a.b"}
  {
    assert rs[..1] == [r] && [r][..0] == [];
    assert OnPath([r], "a.b") == OnPath([], "a.b") + [r];
    assert rs[0] in rs;
  }

  /** A name under the dotted key and one under the nested keys with the same path: both replacements are made
      in the second string, one on top of the other, and the name under the dotted key stays. */
  lemma TwinIsGarbled(cfg: Config, rs: seq<Replacement>, result: Option<Value>)
    requires cfg.Lawful() && rs == Run(cfg, Scanned(NameScanner(), CollidingJson(NAME))).replacements
    requires InSomeOrder(CollidingJson(NAME), rs, result)
    ensures DistinctTree(CollidingJson(NAME)) && ValidTree(CollidingJson(NAME))
    ensures StringAt(CollidingJson(NAME), [Key("a"), Key("b")]) == Some(NAME)
    ensures |rs| == 2 && rs[0] == rs[1] && |rs[0].encrypted| == 8
    ensures result.Some? && StringAt(result.value, [Key("a.b")]) == Some(NAME)
    ensures StringAt(result.value, [Key("a"), Key("b")]) == Some(rs[0].encrypted + rs[0].encrypted[3..])
  {
    var json, m := CollidingJson(NAME), NameMatch(0, Some("a.b"));
    NameIsPlaced();
    CollidingTree(NAME);
    CollidingStrings(NAME);
    DottedPath();
    TwinsScanned();
    TwinsReplaced(cfg, m, rs, HashTokens.Base(cfg.h, RequestOf(m)));
    TwinsOnPath(rs, rs[0]);
    TwinsSpliced(rs, rs[0], rs[0].encrypted);
    PanicsWithOnlyPath(json, rs, "a.b", NAME, result);
    OnlyPathReplaces(json, rs, result, "a.b", NAME);
    BadPlaceStays(json, rs, result, [Key("a.b")]);
  }
}
