/** Bodies with a name nested in JSON: one in which it is found, and four in which the scan misses it
    (hybrid_scanner.rs). */
module HiddenNames {
  import opened Text
  import opened Utf8
  import opened Pii
  import opened Json
  import opened JsonScan
  import opened JsonMatches
  import opened JsonCoverage
  import opened JsonRewrite
  import opened TextScan

  // ---- A name hidden by another path ----

  const NAME := "Bob"
  const NESTED := "[\"Bob\"]"

  function NameMatch(start: nat, path: Option<string>): PiiMatch {
    PiiMatch(Person, start, start + 3, NAME, path, 1.0)
  }

  /** Finds the name when it is the whole text, and parses one document. */
  function DocScanner(doc: string, v: Value): Scanner {
    Scanner(s => if s == NAME then [NameMatch(0, None)] else [], s => s, s => if s == doc then Some(v) else None, [])
  }

  /** The document is an array that holds the name. */
  function NameScanner(): Scanner {
    DocScanner(NESTED, Arr([Str(NAME)]))
  }

  lemma NameIsPlaced()
    ensures ResultsOk(NAME, [NameMatch(0, None)]) && Valid(NAME)
  {
    AsciiIsValid(NAME);
    assert NAME[0..3] == NAME;
  }

  lemma DocScannerIsLawful(doc: string, v: Value)
    requires ValidTree(v)
    ensures LawfulScanner(DocScanner(doc, v))
  {
    forall s: string
      ensures ResultsOk(s, DocScanner(doc, v).scan(s))
    {
      if s == NAME {
        NameIsPlaced();
      } else {
        assert DocScanner(doc, v).scan(s) == [];
      }
    }
  }

  lemma NameScannerIsLawful()
    ensures LawfulScanner(NameScanner())
  {
    NameIsPlaced();
    DocScannerIsLawful(NESTED, Arr([Str(NAME)]));
  }

  function NameJson(): Value {
    Obj([Field("a", Str(NAME)), Field("b", Str(NESTED))])
  }

  /** The leaf under a key at some place. */
  function LeafUnder(base: Place, key: string, text: string): Leaf {
    Leaf(base + [Key(key)], Print(base + [Key(key)]), text)
  }

  lemma NameLeaves(base: Place)
    ensures var json := NameJson();
            && LeavesTo([], json, base, 2) == LeavesAt([], json, base, 0) + LeavesAt([], json, base, 1)
            && LeavesAt([], json, base, 0) == [LeafUnder(base, "a", NAME)]
            && LeavesAt([], json, base, 1) == [LeafUnder(base, "b", NESTED)]
  {
    var json := NameJson();
    assert !IsBase64Source(json.fields);
    assert LeavesTo([], json, base, 1) == LeavesTo([], json, base, 0) + LeavesAt([], json, base, 0);
    assert LeavesTo([], json, base, 0) == [];
  }

  lemma NameHoldsNoJson(doc: string, v: Value, depth: nat)
    requires depth <= MAX_NESTED_JSON_DEPTH
    ensures Inner(DocScanner(doc, v), NAME, depth) == []
  {
    assert NAME[..1] == "B";
  }

  lemma ScanOfName(doc: string, v: Value, leaf: Leaf, depth: nat, acc: seq<PiiMatch>)
    requires depth <= MAX_NESTED_JSON_DEPTH && leaf.text == NAME
    ensures ScanLeaf(DocScanner(doc, v), leaf, depth, acc) == acc + [NameMatch(0, Some(leaf.path))]
  {
    NameHoldsNoJson(doc, v, depth);
    assert WithPath([NameMatch(0, None)], leaf.path) == [NameMatch(0, Some(leaf.path))];
  }

  /** The i-th element of the document. */
  function Element(i: nat): Leaf {
    Leaf([Index(i)], Print([Index(i)]), NAME)
  }

  lemma LeavesOfOne()
    ensures Leaves([], Arr([Str(NAME)]), []) == [Element(0)]
  {
    var inner := Arr([Str(NAME)]);
    assert LeavesTo([], inner, [], 1) == LeavesTo([], inner, [], 0) + LeavesAt([], inner, [], 0);
    assert [] + [Index(0)] == [Index(0)];
  }

  /** The document is walked when it stands in braces or in brackets. */
  lemma InnerOf(c: Scanner, doc: string, v: Value, ms: seq<PiiMatch>)
    requires c.skip == [] && c.trim(doc) == doc && c.parse(doc) == Some(v)
    requires Enclosed(doc) && Fold(c, Leaves([], v, []), 1, []) == ms
    ensures Inner(c, doc, 0) == ms
  {
    NestedIsWalked(c, doc, 0);
  }

  lemma InnerOfDoc(doc: string, v: Value, ms: seq<PiiMatch>)
    requires Enclosed(doc) && Fold(DocScanner(doc, v), Leaves([], v, []), 1, []) == ms
    ensures Inner(DocScanner(doc, v), doc, 0) == ms
  {
    InnerOf(DocScanner(doc, v), doc, v, ms);
  }

  lemma DocHoldsName(doc: string)
    requires Enclosed(doc)
    ensures Inner(DocScanner(doc, Arr([Str(NAME)])), doc, 0) == [NameMatch(0, Some(Print([Index(0)])))]
  {
    var v := Arr([Str(NAME)]);
    LeavesOfOne();
    FoldSnoc(DocScanner(doc, v), [], Element(0), 1, []);
    assert [] + [Element(0)] == [Element(0)];
    ScanOfName(doc, v, Element(0), 1, []);
    InnerOfDoc(doc, v, [NameMatch(0, Some(Print([Index(0)])))]);
  }

  lemma NameInNested()
    ensures FindFrom(NESTED, NAME, 0) == Some(2)
  {
    assert NESTED[0..3] == "[\"B" && NESTED[1..4] == "\"Bo" && NESTED[2..5] == NAME;
    assert FindFrom(NESTED, NAME, 2) == Some(2);
    assert FindFrom(NESTED, NAME, 1) == FindFrom(NESTED, NAME, 2);
  }

  /** A leaf with nothing of its own and one nested match. */
  lemma ScanOfOneNested(c: Scanner, leaf: Leaf, m: PiiMatch, acc: seq<PiiMatch>)
    requires c.scan(leaf.text) == [] && Inner(c, leaf.text, 0) == [m]
    ensures ScanLeaf(c, leaf, 0, acc) == acc + Recover(leaf.text, leaf.path, m, acc)
  {
    assert acc + WithPath([], leaf.path) == acc;
    var next := acc + Recover(leaf.text, leaf.path, m, acc);
    assert RecoverAll(leaf.text, leaf.path, [m], acc) == RecoverAll(leaf.text, leaf.path, [], next);
  }

  lemma ScanOfNested(leaf: Leaf, acc: seq<PiiMatch>)
    requires leaf.text == NESTED
    ensures ScanLeaf(NameScanner(), leaf, 0, acc)
            == acc + if OverlapsAny(acc, 2, 5) then [] else [NameMatch(2, Some(leaf.path))]
  {
    DocHoldsName(NESTED);
    NameInNested();
    ScanOfOneNested(NameScanner(), leaf, NameMatch(0, Some(Print([Index(0)]))), acc);
  }

  lemma WalkOfNames(a: Leaf, b: Leaf)
    requires a.text == NAME && b.text == NESTED
    ensures Fold(NameScanner(), [a], 0, []) == [NameMatch(0, Some(a.path))]
    ensures Fold(NameScanner(), [b], 0, []) == [NameMatch(2, Some(b.path))]
    ensures Fold(NameScanner(), [a] + [b], 0, []) == [NameMatch(0, Some(a.path))]
  {
    var c, found := NameScanner(), [NameMatch(0, Some(a.path))];
    FoldSnoc(c, [], a, 0, []);
    FoldSnoc(c, [], b, 0, []);
    FoldSnoc(c, [a], b, 0, []);
    assert [] + [a] == [a] && [] + [b] == [b];
    ScanOfName(NESTED, Arr([Str(NAME)]), a, 0, []);
    ScanOfNested(b, []);
    assert found[0].end == 3;
    ScanOfNested(b, found);
  }

  lemma SpreadOfTwo(c: Scanner, v: Value)
    requires Arity(v) == 2 && v.Obj?
    ensures Spread(c, Entries(c.skip, v))
            == Fold(c, LeavesAt(c.skip, v, [], 0), 0, []) + Fold(c, LeavesAt(c.skip, v, [], 1), 0, [])
  {
    var first, both := Spread(c, EntriesTo(c.skip, v, 1)), Spread(c, EntriesTo(c.skip, v, 2));
    var one, two := Fold(c, LeavesAt(c.skip, v, [], 0), 0, []), Fold(c, LeavesAt(c.skip, v, [], 1), 0, []);
    assert first == one by {
      EntriesStep(c, v, 0);
      assert EntriesTo(c.skip, v, 0) == [];
    }
    assert both == first + two by {
      EntriesStep(c, v, 1);
    }
  }

  lemma NamesWalked(base: Place)
    ensures Fold(NameScanner(), Leaves([], NameJson(), base), 0, []) == [NameMatch(0, Some(Print(base + [Key("a")])))]
  {
    NameLeaves(base);
    WalkOfNames(LeafUnder(base, "a", NAME), LeafUnder(base, "b", NESTED));
  }

  lemma SpreadOfGroups(c: Scanner, v: Value, a: Leaf, b: Leaf, x: PiiMatch, y: PiiMatch)
    requires Arity(v) == 2 && v.Obj? && LeavesAt(c.skip, v, [], 0) == [a] && LeavesAt(c.skip, v, [], 1) == [b]
    requires Fold(c, [a], 0, []) == [x] && Fold(c, [b], 0, []) == [y]
    ensures Spread(c, Entries(c.skip, v)) == [x, y]
  {
    SpreadOfTwo(c, v);
  }

  lemma NamesSpread()
    ensures Spread(NameScanner(), Entries([], NameJson()))
            == [NameMatch(0, Some(Print([] + [Key("a")]))), NameMatch(2, Some(Print([] + [Key("b")])))]
  {
    var a, b := LeafUnder([], "a", NAME), LeafUnder([], "b", NESTED);
    NameLeaves([]);
    WalkOfNames(a, b);
    SpreadOfGroups(NameScanner(), NameJson(), a, b, NameMatch(0, Some(a.path)), NameMatch(2, Some(b.path)));
  }

  lemma PrintKey(k: string, place: Place)
    requires place == [Key(k)]
    ensures Print(place) == k
  {
    PrintSnoc([], Key(k));
    assert [] + [Key(k)] == place && "" + k == k;
  }

  lemma PrintPair(k: string, l: string, first: Place, place: Place)
    requires k != "" && first == [Key(k)] && place == first + [Key(l)]
    ensures Print(place) == k + "." + l
  {
    PrintKey(k, first);
    PrintSnoc(first, Key(l));
  }

  lemma PrintKeys(k: string, l: string)
    requires k != ""
    ensures Print([Key(k)]) == k && Print([Key(k), Key(l)]) == k + "." + l
  {
    PrintKey(k, [Key(k)]);
    assert [Key(k)] + [Key(l)] == [Key(k), Key(l)];
    PrintPair(k, l, [Key(k)], [Key(k), Key(l)]);
  }

  lemma PairIsGood(a: string, s: string, b: string, t: string)
    requires a != b && GoodSegment(Key(a)) && GoodSegment(Key(b))
    ensures GoodTree(Obj([Field(a, Str(s)), Field(b, Str(t))]))
  {
  }

  lemma PairIsValid(a: string, s: string, b: string, t: string)
    requires Valid(s) && Valid(t)
    ensures ValidTree(Obj([Field(a, Str(s)), Field(b, Str(t))]))
  {
  }

  lemma NamesAreValid()
    ensures Valid(NAME) && Valid(NESTED)
  {
    AsciiIsValid(NAME);
    AsciiIsValid(NESTED);
  }

  lemma KeysAreGood()
    ensures GoodSegment(Key("a")) && GoodSegment(Key("b")) && "a" != "b"
  {
    assert "a"[0] == 'a' && "b"[0] == 'b';
  }

  lemma NameTreeIsGood()
    ensures GoodTree(NameJson()) && ValidTree(NameJson())
  {
    NamesAreValid();
    KeysAreGood();
    PairIsGood("a", NAME, "b", NESTED);
    PairIsValid("a", NAME, "b", NESTED);
  }

  lemma ShortPaths()
    ensures Print([] + [Key("a")]) == "a" && Print([] + [Key("b")]) == "b"
    ensures Print([Key("m")] + [Key("a")]) == "m.a" && Print([Key("m")] + [Key("b")]) == "m.b"
  {
    PrintKeys("a", "");
    PrintKeys("b", "");
    PrintKeys("m", "a");
    PrintKeys("m", "b");
    assert [] + [Key("a")] == [Key("a")] && [] + [Key("b")] == [Key("b")];
    assert [Key("m")] + [Key("a")] == [Key("m"), Key("a")] && [Key("m")] + [Key("b")] == [Key("m"), Key("b")];
  }

  /** The walk drops the name nested under "b" because its offsets collide with those of the match under
      "a"; scanned as entries of their own, both are found. */
  lemma OtherPathHidesNested()
    ensures LawfulScanner(NameScanner()) && GoodTree(NameJson())
    ensures Fold(NameScanner(), Leaves([], NameJson(), []), 0, []) == [NameMatch(0, Some("a"))]
    ensures Spread(NameScanner(), Entries([], NameJson())) == [NameMatch(0, Some("a")), NameMatch(2, Some("b"))]
  {
    NameScannerIsLawful();
    NameTreeIsGood();
    NamesWalked([]);
    NamesSpread();
    ShortPaths();
  }

  /** The same object as the only entry of a body. */
  function WrappedJson(): Value {
    Obj([Field("m", NameJson())])
  }

  lemma WrappedLeaves()
    ensures var json := WrappedJson();
            && |Entries([], json)| == 1
            && Leaves([], json, []) == [LeafUnder([Key("m")], "a", NAME)] + [LeafUnder([Key("m")], "b", NESTED)]
  {
    var json := WrappedJson();
    assert !IsBase64Source(json.fields);
    assert LeavesTo([], json, [], 1) == LeavesTo([], json, [], 0) + LeavesAt([], json, [], 0);
    assert [] + [Key("m")] == [Key("m")];
    NameLeaves([Key("m")]);
    assert EntriesTo([], json, 1) == EntriesTo([], json, 0) + [Entry([Key("m")], NameJson())];
  }

  lemma WrapIsGood(key: string, v: Value)
    requires GoodTree(v) && ValidTree(v) && GoodSegment(Key(key))
    ensures GoodTree(Obj([Field(key, v)])) && ValidTree(Obj([Field(key, v)]))
  {
  }

  lemma StringInWrap(key: string, v: Value, p: Place)
    ensures StringAt(Obj([Field(key, v)]), [Key(key)] + p) == StringAt(v, p)
  {
    assert ([Key(key)] + p)[1..] == p;
    assert Child(Obj([Field(key, v)]), Key(key)) == Some(v);
  }

  lemma SecondString(a: string, s: string, b: string, t: string)
    requires a != b
    ensures StringAt(Obj([Field(a, Str(s)), Field(b, Str(t))]), [Key(b)]) == Some(t)
  {
    var json, p := Obj([Field(a, Str(s)), Field(b, Str(t))]), [Key(b)];
    FieldIndexOfDistinct(json.fields, 1);
    assert p[0] == Key(b) && p[1..] == [] && Child(json, p[0]) == Some(Str(t));
    assert Locate(json, p) == Locate(Str(t), p[1..]);
  }

  lemma WrappedTree()
    ensures GoodTree(WrappedJson()) && ValidTree(WrappedJson())
    ensures StringAt(WrappedJson(), [Key("m")] + [Key("b")]) == Some(NESTED)
  {
    NameTreeIsGood();
    WrapIsGood("m", NameJson());
    StringInWrap("m", NameJson(), [Key("b")]);
    SecondString("a", NAME, "b", NESTED);
  }

  lemma WrappedScanned()
    ensures Scanned(NameScanner(), WrappedJson()) == [NameMatch(0, Some("m.a"))]
  {
    WrappedLeaves();
    ShortPaths();
    WalkOfNames(LeafUnder([Key("m")], "a", NAME), LeafUnder([Key("m")], "b", NESTED));
  }

  lemma NotCovered(text: string, path: string, raw: string, pos: nat, m: PiiMatch)
    requires FindFrom(text, raw, 0) == Some(pos) && raw != "" && m.jsonPath != Some(path)
    ensures !Covered(text, path, raw, [m])
  {
  }

  /** In this body the scan misses a name: it is in the string at "m.b", and no match has that path. */
  lemma NestedNameMissed()
    ensures LawfulScanner(NameScanner()) && GoodTree(WrappedJson()) && ValidTree(WrappedJson())
    ensures StringAt(WrappedJson(), [Key("m")] + [Key("b")]) == Some(NESTED)
    ensures exists path :: Inner(NameScanner(), NESTED, 0) == [NameMatch(0, Some(path))]
    ensures Scanned(NameScanner(), WrappedJson()) == [NameMatch(0, Some("m.a"))]
    ensures !Covered(NESTED, "m.b", NAME, Scanned(NameScanner(), WrappedJson()))
  {
    NameScannerIsLawful();
    WrappedTree();
    WrappedScanned();
    DocHoldsName(NESTED);
    NameInNested();
    assert "m.a"[2] != "m.b"[2];
    NotCovered(NESTED, "m.b", NAME, 2, NameMatch(0, Some("m.a")));
  }

  // ---- An escaped name, and a repeated one ----

  const ESCAPED := "[\"B\\u006fb\"]"
  const REPEATED := "[\"Bob\",\"Bob\"]"

  function EscapedScanner(): Scanner {
    DocScanner(ESCAPED, Arr([Str(NAME)]))
  }

  function RepeatedScanner(): Scanner {
    DocScanner(REPEATED, Arr([Str(NAME), Str(NAME)]))
  }

  function DocJson(doc: string): Value {
    Obj([Field("m", Str(doc))])
  }

  lemma DocTree(doc: string)
    requires Valid(doc)
    ensures GoodTree(DocJson(doc)) && ValidTree(DocJson(doc))
  {
    assert GoodSegment(Key("m"));
  }

  lemma LeavesOfField(key: string, s: string)
    requires !IsDataUri(s) && key != ""
    ensures Leaves([], Obj([Field(key, Str(s))]), []) == [Leaf([Key(key)], key, s)]
  {
    var v := Obj([Field(key, Str(s))]);
    PrintKeys(key, "");
    assert key == "type" ==> key[0] != "data"[0];
    assert !Skipped([], v, 0);
    assert LeavesAt([], v, [], 0) == [Leaf([Key(key)], key, s)] by {
      assert [] + [SegmentAt(v, 0)] == [Key(key)];
    }
    assert LeavesTo([], v, [], 1) == LeavesTo([], v, [], 0) + LeavesAt([], v, [], 0);
  }

  lemma DocLeaves(doc: string)
    requires !IsDataUri(doc)
    ensures Leaves([], DocJson(doc), []) == [Leaf([Key("m")], "m", doc)] && |Entries([], DocJson(doc))| == 1
  {
    var json := DocJson(doc);
    LeavesOfField("m", doc);
    assert !IsBase64Source(json.fields);
    assert EntriesTo([], json, 1) == EntriesTo([], json, 0) + [Entry([Key("m")], Str(doc))];
  }

  lemma DocScanned(c: Scanner, doc: string)
    requires c.skip == [] && doc != "" && doc[0] != 'd'
    ensures Scanned(c, DocJson(doc)) == ScanLeaf(c, Leaf([Key("m")], "m", doc), 0, [])
  {
    var leaf := Leaf([Key("m")], "m", doc);
    assert !StartsWith(doc, "data:image/");
    DocLeaves(doc);
    FoldSnoc(c, [], leaf, 0, []);
    assert [] + [leaf] == [leaf];
  }

  lemma FirstTwo(s: string, pat: string, pos: nat)
    requires |pat| >= 2
    ensures OccursAt(s, pat, pos) ==> pos + 1 < |s| && s[pos] == pat[0] && s[pos + 1] == pat[1]
  {
    if OccursAt(s, pat, pos) {
      assert s[pos..pos + |pat|][0] == s[pos] && s[pos..pos + |pat|][1] == s[pos + 1];
    }
  }

  lemma NameNotInEscaped(pos: nat)
    ensures !OccursAt(ESCAPED, NAME, pos)
  {
    FirstTwo(ESCAPED, NAME, pos);
    assert forall k | 0 <= k < |ESCAPED| :: ESCAPED[k] == 'B' ==> k == 2;
    assert ESCAPED[3] != 'o';
  }

  lemma NothingFound(s: string, pat: string)
    requires pat != "" && forall pos: nat :: !OccursAt(s, pat, pos)
    ensures FindFrom(s, pat, 0) == None
  {
    var r := FindFrom(s, pat, 0);
    assert r.Some? ==> OccursAt(s, pat, r.value);
  }

  /** The match for the i-th element of the document. */
  function InElement(i: nat): PiiMatch {
    NameMatch(0, Some(Print([Index(i)])))
  }

  lemma EscapedHoldsName()
    ensures Inner(EscapedScanner(), ESCAPED, 0) == [InElement(0)]
    ensures forall pos: nat :: !OccursAt(ESCAPED, NAME, pos)
    ensures FindFrom(ESCAPED, NAME, 0) == None
  {
    DocHoldsName(ESCAPED);
    forall pos: nat
      ensures !OccursAt(ESCAPED, NAME, pos)
    {
      NameNotInEscaped(pos);
    }
    NothingFound(ESCAPED, NAME);
  }

  /** A string with nothing of its own whose one nested match does not occur in it literally. */
  lemma ScanOfEscaped(c: Scanner, leaf: Leaf, m: PiiMatch)
    requires c.scan(leaf.text) == [] && Inner(c, leaf.text, 0) == [m] && FindFrom(leaf.text, m.rawValue, 0) == None
    ensures ScanLeaf(c, leaf, 0, []) == []
  {
    ScanOfOneNested(c, leaf, m, []);
  }

  lemma EscapedScanned()
    ensures Scanned(EscapedScanner(), DocJson(ESCAPED)) == []
  {
    var c := EscapedScanner();
    EscapedHoldsName();
    DocScanned(c, ESCAPED);
    assert ESCAPED[0] != NAME[0];
    ScanOfEscaped(c, Leaf([Key("m")], "m", ESCAPED), InElement(0));
  }

  lemma DocIsLawful(doc: string, v: Value)
    requires Valid(doc) && ValidTree(v)
    ensures LawfulScanner(DocScanner(doc, v)) && GoodTree(DocJson(doc)) && ValidTree(DocJson(doc))
  {
    DocScannerIsLawful(doc, v);
    DocTree(doc);
  }

  lemma EscapedIsValid()
    ensures Valid(ESCAPED) && Valid(NAME)
  {
    AsciiIsValid(NAME);
    AsciiIsValid(ESCAPED);
  }

  lemma OnceIsValid(s: string)
    requires Valid(s)
    ensures ValidTree(Arr([Str(s)]))
  {
  }

  lemma EscapedIsLawful()
    ensures LawfulScanner(EscapedScanner()) && GoodTree(DocJson(ESCAPED)) && ValidTree(DocJson(ESCAPED))
  {
    EscapedIsValid();
    OnceIsValid(NAME);
    DocIsLawful(ESCAPED, Arr([Str(NAME)]));
  }

  /** In this body the name is written with an escape: it is found in the nested array and then dropped, as
      it does not occur in the string literally. */
  lemma EscapedNameMissed()
    ensures LawfulScanner(EscapedScanner()) && GoodTree(DocJson(ESCAPED)) && ValidTree(DocJson(ESCAPED))
    ensures Inner(EscapedScanner(), ESCAPED, 0) == [InElement(0)] && InElement(0).rawValue == NAME
    ensures Scanned(EscapedScanner(), DocJson(ESCAPED)) == []
    ensures !Covered(ESCAPED, "m", NAME, []) && !Protected(ESCAPED, "m", NAME, [])
  {
    EscapedIsLawful();
    EscapedHoldsName();
    EscapedScanned();
  }

  lemma LeafOfElement(elems: seq<Value>, i: nat)
    requires i < |elems| && elems[i] == Str(NAME)
    ensures LeavesAt([], Arr(elems), [], i) == [Element(i)]
  {
    assert [] + [Index(i)] == [Index(i)];
  }

  lemma LeavesOfPair(v: Value, a: Leaf, b: Leaf)
    requires v.Arr? && Arity(v) == 2 && LeavesAt([], v, [], 0) == [a] && LeavesAt([], v, [], 1) == [b]
    ensures Leaves([], v, []) == [a] + [b]
  {
    assert LeavesTo([], v, [], 0) == [];
    assert LeavesTo([], v, [], 1) == LeavesTo([], v, [], 0) + [a] == [a];
    assert LeavesTo([], v, [], 2) == LeavesTo([], v, [], 1) + [b];
  }

  lemma LeavesOfTwo()
    ensures Leaves([], Arr([Str(NAME), Str(NAME)]), []) == [Element(0)] + [Element(1)]
  {
    var elems := [Str(NAME), Str(NAME)];
    LeafOfElement(elems, 0);
    LeafOfElement(elems, 1);
    LeavesOfPair(Arr(elems), Element(0), Element(1));
  }

  lemma DocHoldsNames(doc: string)
    requires Enclosed(doc)
    ensures Inner(DocScanner(doc, Arr([Str(NAME), Str(NAME)])), doc, 0) == [InElement(0)] + [InElement(1)]
  {
    var v := Arr([Str(NAME), Str(NAME)]);
    var c := DocScanner(doc, v);
    LeavesOfTwo();
    FoldSnoc(c, [], Element(0), 1, []);
    FoldSnoc(c, [Element(0)], Element(1), 1, []);
    assert [] + [Element(0)] == [Element(0)];
    ScanOfName(doc, v, Element(0), 1, []);
    ScanOfName(doc, v, Element(1), 1, [InElement(0)]);
    InnerOfDoc(doc, v, [InElement(0)] + [InElement(1)]);
  }

  lemma NameInRepeated()
    ensures FindFrom(REPEATED, NAME, 0) == Some(2) && OccursAt(REPEATED, NAME, 8)
  {
    assert REPEATED[0..3] == "[\"B" && REPEATED[1..4] == "\"Bo" && REPEATED[2..5] == NAME && REPEATED[8..11] == NAME;
    assert FindFrom(REPEATED, NAME, 2) == Some(2);
    assert FindFrom(REPEATED, NAME, 1) == FindFrom(REPEATED, NAME, 2);
  }

  /** Two nested matches with one value: the first takes its first occurrence, and the second is dropped. */
  lemma ScanOfTwoNested(c: Scanner, leaf: Leaf, m: PiiMatch, n: PiiMatch, pos: nat)
    requires c.scan(leaf.text) == [] && Inner(c, leaf.text, 0) == [m] + [n]
    requires m.rawValue == n.rawValue != "" && FindFrom(leaf.text, m.rawValue, 0) == Some(pos)
    ensures ScanLeaf(c, leaf, 0, []) == [Moved(m, pos, leaf.path)]
  {
    var s, path, first := leaf.text, leaf.path, [Moved(m, pos, leaf.path)];
    assert [] + WithPath([], path) == [];
    RecoverLast(s, path, [], m, []);
    RecoverLast(s, path, [m], n, []);
    assert [] + [m] == [m] && [] + first == first;
    RecoverIsUnblocked(s, path, m, []);
    BlockedAfterTurn(s, path, m, [], pos);
    assert first + [] == first;
  }

  lemma RepeatedHoldsNames()
    ensures Inner(RepeatedScanner(), REPEATED, 0) == [InElement(0)] + [InElement(1)]
  {
    DocHoldsNames(REPEATED);
  }

  lemma RepeatedScanned()
    ensures Scanned(RepeatedScanner(), DocJson(REPEATED)) == [NameMatch(2, Some("m"))]
  {
    var c := RepeatedScanner();
    RepeatedHoldsNames();
    NameInRepeated();
    DocScanned(c, REPEATED);
    assert REPEATED[0] != NAME[0];
    ScanOfTwoNested(c, Leaf([Key("m")], "m", REPEATED), InElement(0), InElement(1), 2);
  }

  lemma SecondNameUncovered()
    ensures OccursAt(REPEATED, NAME, 8) && !OverlapsOn([NameMatch(2, Some("m"))], "m", 8, 11)
    ensures !Protected(REPEATED, "m", NAME, [NameMatch(2, Some("m"))])
  {
    NameInRepeated();
    assert OccursAt(REPEATED, NAME, 8) && InOccurrence(REPEATED, NAME, 8);
    assert !InMatch([NameMatch(2, Some("m"))], "m", 8);
  }

  lemma RepeatedIsValid()
    ensures Valid(REPEATED) && Valid(NAME)
  {
    AsciiIsValid(NAME);
    AsciiIsValid(REPEATED);
  }

  lemma TwiceIsValid(s: string)
    requires Valid(s)
    ensures ValidTree(Arr([Str(s), Str(s)]))
  {
  }

  lemma RepeatedIsLawful()
    ensures LawfulScanner(RepeatedScanner()) && GoodTree(DocJson(REPEATED)) && ValidTree(DocJson(REPEATED))
  {
    RepeatedIsValid();
    TwiceIsValid(NAME);
    DocIsLawful(REPEATED, Arr([Str(NAME), Str(NAME)]));
  }

  /** In this body the name occurs twice, is found twice in the nested array, and is reported once: nothing
      covers its second occurrence. */
  lemma RepeatedNameMissed()
    ensures LawfulScanner(RepeatedScanner()) && GoodTree(DocJson(REPEATED)) && ValidTree(DocJson(REPEATED))
    ensures Inner(RepeatedScanner(), REPEATED, 0) == [InElement(0)] + [InElement(1)]
    ensures Scanned(RepeatedScanner(), DocJson(REPEATED)) == [NameMatch(2, Some("m"))]
    ensures OccursAt(REPEATED, NAME, 8) && !OverlapsOn([NameMatch(2, Some("m"))], "m", 8, 11)
    ensures !Protected(REPEATED, "m", NAME, [NameMatch(2, Some("m"))])
  {
    RepeatedIsLawful();
    RepeatedHoldsNames();
    RepeatedScanned();
    SecondNameUncovered();
  }

  // ---- A name in a nested object ----

  const OBJECT := "{\"to\":\"Bob\"}"

  function ObjectScanner(): Scanner {
    DocScanner(OBJECT, Obj([Field("to", Str(NAME))]))
  }

  lemma ObjectHoldsName()
    ensures Inner(ObjectScanner(), OBJECT, 0) == [NameMatch(0, Some("to"))]
  {
    var v, leaf := Obj([Field("to", Str(NAME))]), Leaf([Key("to")], "to", NAME);
    LeavesOfField("to", NAME);
    FoldSnoc(ObjectScanner(), [], leaf, 1, []);
    assert [] + [leaf] == [leaf];
    ScanOfName(OBJECT, v, leaf, 1, []);
    InnerOfDoc(OBJECT, v, [NameMatch(0, Some("to"))]);
  }

  lemma NameInObject(pos: nat)
    ensures OccursAt(OBJECT, NAME, pos) <==> pos == 7
  {
    FirstTwo(OBJECT, NAME, pos);
    assert forall k | 0 <= k < |OBJECT| :: OBJECT[k] == 'B' ==> k == 7;
    assert OBJECT[7..10] == NAME;
  }

  lemma FoundWhere(s: string, pat: string, at: nat)
    requires pat != "" && forall pos: nat :: OccursAt(s, pat, pos) <==> pos == at
    ensures FindFrom(s, pat, 0) == Some(at)
  {
    assert OccursAt(s, pat, at);
    FindFromFinds(s, pat, 0, at);
    var r := FindFrom(s, pat, 0);
    assert OccursAt(s, pat, r.value);
  }

  lemma NameOnlyThere()
    ensures forall pos: nat :: OccursAt(OBJECT, NAME, pos) <==> pos == 7
    ensures FindFrom(OBJECT, NAME, 0) == Some(7)
  {
    forall pos: nat
      ensures OccursAt(OBJECT, NAME, pos) <==> pos == 7
    {
      NameInObject(pos);
    }
    FoundWhere(OBJECT, NAME, 7);
  }

  lemma ScanOfFound(c: Scanner, leaf: Leaf, m: PiiMatch, pos: nat)
    requires c.scan(leaf.text) == [] && Inner(c, leaf.text, 0) == [m] && FindFrom(leaf.text, m.rawValue, 0) == Some(pos)
    ensures ScanLeaf(c, leaf, 0, []) == [Moved(m, pos, leaf.path)]
  {
    ScanOfOneNested(c, leaf, m, []);
    RecoverIsUnblocked(leaf.text, leaf.path, m, []);
  }

  lemma ObjectScanned()
    ensures Scanned(ObjectScanner(), DocJson(OBJECT)) == [NameMatch(7, Some("m"))]
  {
    var c := ObjectScanner();
    ObjectHoldsName();
    NameOnlyThere();
    DocScanned(c, OBJECT);
    assert OBJECT[0] != NAME[0];
    ScanOfFound(c, Leaf([Key("m")], "m", OBJECT), NameMatch(0, Some("to")), 7);
  }

  lemma OneIsProtected(text: string, path: string, m: PiiMatch, at: nat)
    requires m.rawValue != "" && forall pos: nat :: OccursAt(text, m.rawValue, pos) <==> pos == at
    requires m.jsonPath == Some(path) && m.start == at && m.end == at + |m.rawValue|
    ensures Protected(text, path, m.rawValue, [m])
  {
    var ms := [m];
    assert OccursAt(text, m.rawValue, at);
    forall q: nat | InOccurrence(text, m.rawValue, q)
      ensures InMatch(ms, path, q)
    {
      assert ms[0].start <= q < ms[0].end;
    }
  }

  /** The string holds the name in an object: the text scan of the string finds nothing, and yet the name is
      reported at its place in the string, all of it. */
  lemma NestedNameFound()
    ensures ObjectScanner().scan(OBJECT) == [] && Inner(ObjectScanner(), OBJECT, 0) == [NameMatch(0, Some("to"))]
    ensures Scanned(ObjectScanner(), DocJson(OBJECT)) == [NameMatch(7, Some("m"))]
    ensures Protected(OBJECT, "m", NAME, Scanned(ObjectScanner(), DocJson(OBJECT)))
  {
    assert OBJECT[0] != NAME[0];
    ObjectHoldsName();
    ObjectScanned();
    NameOnlyThere();
    OneIsProtected(OBJECT, "m", NameMatch(7, Some("m")), 7);
  }
}
