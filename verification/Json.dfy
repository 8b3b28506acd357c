/** JSON trees, places in them, and the textual paths that name those places
    (hybrid_scanner.rs, body.rs). */
module Json {
  import opened Text
  import Decimal

  const USIZE: int := 0x1_0000_0000_0000_0000

  /** Objects list their fields in the order the map yields them. */
  datatype Value =
    | Null
    | Bool(b: bool)
    | Number(digits: string)
    | Str(s: string)
    | Arr(elems: seq<Value>)
    | Obj(fields: seq<Field>)

  datatype Field = Field(key: string, value: Value)

  datatype Segment = Key(key: string) | Index(index: nat)

  type Place = seq<Segment>

  // ---- Places ----

  /** Position of the field with a key, or the number of fields. */
  function FieldIndex(fields: seq<Field>, key: string): (j: nat)
    ensures j <= |fields| && (j < |fields| ==> fields[j].key == key)
  {
    if fields == [] then 0 else if fields[0].key == key then 0 else 1 + FieldIndex(fields[1..], key)
  }

  function Child(v: Value, seg: Segment): Option<Value> {
    match (v, seg)
    case (Arr(elems), Index(i)) => if i < |elems| then Some(elems[i]) else None
    case (Obj(fields), Key(k)) =>
      var j := FieldIndex(fields, k);
      if j < |fields| then Some(fields[j].value) else None
    case _ => None
  }

  function Locate(v: Value, p: Place): Option<Value> {
    if p == [] then Some(v)
    else match Child(v, p[0])
      case None => None
      case Some(w) => Locate(w, p[1..])
  }

  lemma {:induction false} LocateConcat(v: Value, p: Place, q: Place)
    requires Locate(v, p).Some?
    ensures Locate(v, p + q) == Locate(Locate(v, p).value, q)
  {
    if p == [] {
      assert p + q == q;
    } else {
      assert (p + q)[1..] == p[1..] + q;
      LocateConcat(Child(v, p[0]).value, p[1..], q);
    }
  }

  ghost predicate DistinctKeys(fields: seq<Field>) {
    forall i, j | 0 <= i < j < |fields| :: fields[i].key != fields[j].key
  }

  lemma {:induction false} FieldIndexOfDistinct(fields: seq<Field>, j: nat)
    requires DistinctKeys(fields) && j < |fields|
    ensures FieldIndex(fields, fields[j].key) == j
  {
    if j > 0 {
      assert fields[0].key != fields[j].key;
      FieldIndexOfDistinct(fields[1..], j - 1);
    }
  }

  // ---- Printed paths ----

  /** Extends a printed path the way the scanners do. */
  function Extend(path: string, seg: Segment): string {
    path + Suffix(seg, path == "")
  }

  function Suffix(seg: Segment, first: bool): string {
    match seg
    case Key(k) => if first then k else "." + k
    case Index(i) => "[" + Decimal.PrintNat(i) + "]"
  }

  function Print(p: Place): string {
    if p == [] then "" else Extend(Print(p[..|p| - 1]), p[|p| - 1])
  }

  lemma PrintSnoc(p: Place, seg: Segment)
    ensures Print(p + [seg]) == Extend(Print(p), seg)
  {
    assert (p + [seg])[..|p|] == p;
  }

  /** Keys that survive printing: not empty, without '.' and '['. Indices fit a machine word. */
  predicate GoodSegment(seg: Segment) {
    match seg
    case Key(k) => k != "" && '.' !in k && '[' !in k
    case Index(i) => i < USIZE
  }

  ghost predicate GoodPlace(p: Place) {
    forall seg | seg in p :: GoodSegment(seg)
  }

  // ---- Parsing paths ----

  function Flush(current: string): Place {
    if current == "" then [] else [Key(current)]
  }

  function BracketEnd(s: string): (n: nat)
    ensures n <= |s| && (n < |s| ==> s[n] == ']')
  {
    if s == [] || s[0] == ']' then 0 else 1 + BracketEnd(s[1..])
  }

  function IndexOf(digits: string): Place {
    match Decimal.ParseInt(digits, false, 0, USIZE)
    case Some(i) => if i >= 0 then [Index(i)] else []
    case None => []
  }

  /** What follows the closing bracket, or nothing. */
  function AfterBracket(s: string): (r: string)
    ensures |r| <= |s|
  {
    var n := BracketEnd(s);
    if n < |s| then s[n + 1..] else []
  }

  function ParseFrom(s: string, current: string): Place
    decreases |s|
  {
    if s == [] then Flush(current)
    else if s[0] == '.' then Flush(current) + ParseFrom(s[1..], "")
    else if s[0] == '[' then
      Flush(current) + IndexOf(s[1..][..BracketEnd(s[1..])]) + ParseFrom(AfterBracket(s[1..]), "")
    else ParseFrom(s[1..], current + [s[0]])
  }

  function Parse(path: string): Place {
    ParseFrom(path, "")
  }

  lemma BracketEndStep(path: string, from: nat, i: nat)
    requires from <= i < |path| && BracketEnd(path[from..]) == (i - from) + BracketEnd(path[i..])
    ensures if path[i] == ']' then BracketEnd(path[from..]) == i - from
            else BracketEnd(path[from..]) == (i + 1 - from) + BracketEnd(path[i + 1..])
  {
    assert path[i..][1..] == path[i + 1..];
  }

  /** A bracket that ends at position i, or a text that ends there without one. */
  lemma BracketRead(path: string, from: nat, i: nat)
    requires from <= i <= |path| && BracketEnd(path[from..]) == i - from
    ensures path[from..][..BracketEnd(path[from..])] == path[from..i]
    ensures AfterBracket(path[from..]) == if i < |path| then path[i + 1..] else []
  {
  }

  /** The digits of an index, and the position after its closing bracket. */
  method ReadIndex(path: string, from: nat) returns (digits: string, i: nat)
    requires from <= |path|
    ensures from <= i <= |path|
    ensures digits == path[from..][..BracketEnd(path[from..])] && path[i..] == AfterBracket(path[from..])
  {
    digits, i := "", from;
    ghost var n := BracketEnd(path[from..]);
    while i < |path|
      invariant from <= i <= |path| && digits == path[from..i]
      invariant n == (i - from) + BracketEnd(path[i..])
    {
      BracketEndStep(path, from, i);
      if path[i] == ']' {
        BracketRead(path, from, i);
        return digits, i + 1;
      }
      digits := digits + [path[i]];
      i := i + 1;
    }
    BracketRead(path, from, i);
  }

  /** One character, or one bracketed index, of the path. */
  method ParseStep(path: string, i: nat, current: string) returns (more: Place, next: nat, rest: string)
    requires i < |path|
    ensures i < next <= |path|
    ensures ParseFrom(path[i..], current) == more + ParseFrom(path[next..], rest)
  {
    var c := path[i];
    assert path[i..][0] == c && path[i..][1..] == path[i + 1..];
    if c == '.' {
      return Flush(current), i + 1, "";
    } else if c == '[' {
      var digits, after := ReadIndex(path, i + 1);
      return Flush(current) + IndexOf(digits), after, "";
    }
    return [], i + 1, current + [c];
  }

  method ParsePath(path: string) returns (segments: Place)
    ensures segments == Parse(path)
  {
    segments := [];
    var current, i := "", 0;
    assert path[0..] == path;
    while i < |path|
      invariant i <= |path|
      invariant segments + ParseFrom(path[i..], current) == Parse(path)
      decreases |path| - i
    {
      var more, next, rest := ParseStep(path, i, current);
      assert segments + (more + ParseFrom(path[next..], rest)) == segments + more + ParseFrom(path[next..], rest);
      segments, i, current := segments + more, next, rest;
    }
    assert path[i..] == [];
    segments := segments + Flush(current);
  }

  /** Follows a textual path from the root; the empty path is the root. */
  method Navigate(json: Value, path: string) returns (r: Option<Value>)
    ensures r == Locate(json, Parse(path))
  {
    if path == "" {
      return Some(json);
    }
    var segments := ParsePath(path);
    var current := json;
    for k := 0 to |segments|
      invariant Locate(current, segments[k..]) == Locate(json, segments)
    {
      assert segments[k..][1..] == segments[k + 1..];
      match Child(current, segments[k]) {
        case None => return None;
        case Some(w) => current := w;
      }
    }
    r := Some(current);
  }

  // ---- Round trip ----

  ghost predicate Breaks(t: string) {
    t == [] || t[0] == '.' || t[0] == '['
  }

  lemma ParsePlainChar(c: char, s: string, current: string)
    requires c != '.' && c != '['
    ensures ParseFrom([c] + s, current) == ParseFrom(s, current + [c])
  {
    assert ([c] + s)[1..] == s;
  }

  lemma {:induction false} ParseKey(k: string, current: string, t: string)
    requires '.' !in k && '[' !in k && current + k != "" && Breaks(t)
    ensures ParseFrom(k + t, current) == [Key(current + k)] + ParseFrom(t, "")
  {
    if k == [] {
      assert k + t == t && current + k == current;
    } else {
      var c, rest := k[0], k[1..];
      ParsePlainChar(c, rest + t, current);
      assert k + t == [c] + (rest + t);
      assert current + [c] + rest == current + k;
      ParseKey(rest, current + [c], t);
    }
  }

  lemma {:induction false} BracketEndOf(digits: string, t: string)
    requires ']' !in digits
    ensures BracketEnd(digits + "]" + t) == |digits|
  {
    var s := digits + "]" + t;
    if digits != [] {
      assert s[1..] == digits[1..] + "]" + t;
      BracketEndOf(digits[1..], t);
    }
  }

  lemma ParseIndex(i: nat, t: string)
    requires i < USIZE
    ensures ParseFrom("[" + Decimal.PrintNat(i) + "]" + t, "") == [Index(i)] + ParseFrom(t, "")
  {
    var digits := Decimal.PrintNat(i);
    var inner := digits + "]" + t;
    var s := "[" + digits + "]" + t;
    Decimal.PrintNatDigits(i);
    BracketEndOf(digits, t);
    assert s[1..] == inner && inner[..|digits|] == digits && inner[|digits| + 1..] == t;
    Decimal.ParseIntOfPrint(i, false, 0, USIZE);
    assert Decimal.PrintInt(i) == digits;
  }

  lemma PrintIsEmptyIff(p: Place)
    requires GoodPlace(p)
    ensures Print(p) == "" <==> p == []
  {
    if p != [] {
      assert p[|p| - 1] in p;
    }
  }

  lemma ParseSuffix(seg: Segment, first: bool, t: string)
    requires GoodSegment(seg) && Breaks(t)
    ensures ParseFrom(Suffix(seg, first) + t, "") == [seg] + ParseFrom(t, "")
  {
    match seg {
      case Index(i) => ParseIndex(i, t);
      case Key(k) =>
        assert "" + k == k;
        ParseKey(k, "", t);
        if !first {
          var s := "." + k + t;
          assert s[1..] == k + t;
        }
    }
  }

  /** In front of anything that starts a new segment, the parser reads the text as p. */
  ghost predicate ParsesTo(parse: string -> Place, text: string, p: Place) {
    forall t | Breaks(t) :: parse(text + t) == p + parse(t)
  }

  lemma ParsesInTurn(parse: string -> Place, text: string, p: Place, suffix: string, seg: Segment)
    requires ParsesTo(parse, text, p) && ParsesTo(parse, suffix, [seg]) && Breaks(suffix) && suffix != ""
    ensures ParsesTo(parse, text + suffix, p + [seg])
  {
    forall t | Breaks(t)
      ensures parse(text + suffix + t) == p + [seg] + parse(t)
    {
      var tail := suffix + t;
      assert Breaks(tail) && text + suffix + t == text + tail;
      assert parse(tail) == [seg] + parse(t);
    }
  }

  lemma SuffixParses(seg: Segment, first: bool)
    requires GoodSegment(seg)
    ensures ParsesTo(Parse, Suffix(seg, first), [seg])
  {
    forall t | Breaks(t)
      ensures Parse(Suffix(seg, first) + t) == [seg] + Parse(t)
    {
      ParseSuffix(seg, first, t);
    }
  }

  lemma EmptyParses()
    ensures ParsesTo(Parse, "", [])
  {
    forall t | Breaks(t)
      ensures Parse("" + t) == [] + Parse(t)
    {
      assert "" + t == t;
    }
  }

  lemma ExtendedParses(text: string, front: Place, last: Segment)
    requires ParsesTo(Parse, text, front) && GoodSegment(last) && (text == "" <==> front == [])
    ensures ParsesTo(Parse, Extend(text, last), front + [last])
  {
    SuffixParses(last, text == "");
    if text == "" {
      assert text + Suffix(last, true) == Suffix(last, true) && front + [last] == [last];
    } else {
      ParsesInTurn(Parse, text, front, Suffix(last, false), last);
    }
  }

  lemma {:induction false} PrintedParses(p: Place)
    requires GoodPlace(p)
    ensures ParsesTo(Parse, Print(p), p)
  {
    if p == [] {
      EmptyParses();
    } else {
      var front, last := p[..|p| - 1], p[|p| - 1];
      PrintedParses(front);
      PrintIsEmptyIff(front);
      assert last in p;
      ExtendedParses(Print(front), front, last);
      assert p == front + [last];
    }
  }

  lemma PathRoundTrip(p: Place)
    requires GoodPlace(p)
    ensures Parse(Print(p)) == p
  {
    PrintedParses(p);
    assert Breaks("");
    assert Print(p) + "" == Print(p);
  }

  lemma GoodConcat(p: Place, q: Place)
    requires GoodPlace(p) && GoodPlace(q)
    ensures GoodPlace(p + q)
  {
  }

  lemma FlushedIsGood(current: string)
    requires '.' !in current && '[' !in current
    ensures GoodPlace(Flush(current))
  {
  }

  lemma IndexIsGood(digits: string)
    ensures GoodPlace(IndexOf(digits))
  {
  }

  /** The parser never makes up an empty key, or one with '.' or '[' in it. */
  lemma {:induction false} ParsedIsGood(s: string, current: string)
    requires '.' !in current && '[' !in current
    ensures GoodPlace(ParseFrom(s, current))
    decreases |s|
  {
    FlushedIsGood(current);
    if s == [] {
    } else if s[0] == '.' {
      ParsedIsGood(s[1..], "");
      GoodConcat(Flush(current), ParseFrom(s[1..], ""));
    } else if s[0] == '[' {
      var rest, digits := AfterBracket(s[1..]), s[1..][..BracketEnd(s[1..])];
      IndexIsGood(digits);
      ParsedIsGood(rest, "");
      GoodConcat(Flush(current), IndexOf(digits));
      GoodConcat(Flush(current) + IndexOf(digits), ParseFrom(rest, ""));
    } else {
      ParsedIsGood(s[1..], current + [s[0]]);
    }
  }

  /** Parsing a printed path gives back its segments, if and only if its keys survive printing. */
  lemma PathRoundTripIff(p: Place)
    ensures Parse(Print(p)) == p <==> GoodPlace(p)
  {
    ParsedIsGood(Print(p), "");
    if GoodPlace(p) {
      PathRoundTrip(p);
    }
  }

  lemma PrintIsInjective(p: Place, q: Place)
    requires GoodPlace(p) && GoodPlace(q)
    ensures Print(p) == Print(q) <==> p == q
  {
    PathRoundTrip(p);
    PathRoundTrip(q);
  }

  /** Without the restriction on keys printed paths collide: a dotted key and a nested one. */
  lemma PrintedPathsCanCollide(a: string, b: string)
    requires a != ""
    ensures Print([Key(a + "." + b)]) == Print([Key(a), Key(b)])
  {
    assert [Key(a), Key(b)][..1] == [Key(a)];
    assert [Key(a)][..0] == [] && [Key(a + "." + b)][..0] == [];
  }

  // ---- Trees ----

  /** No object of the tree has two fields with one key. */
  ghost predicate DistinctTree(v: Value) {
    match v
    case Arr(elems) => forall i | 0 <= i < |elems| :: DistinctTree(elems[i])
    case Obj(fields) => DistinctKeys(fields) && forall i | 0 <= i < |fields| :: DistinctTree(fields[i].value)
    case _ => true
  }

  /** Moreover all keys survive printing, and arrays fit in memory, all the way down. */
  ghost predicate GoodTree(v: Value) {
    match v
    case Arr(elems) => |elems| < USIZE && forall i | 0 <= i < |elems| :: GoodTree(elems[i])
    case Obj(fields) =>
      && DistinctKeys(fields)
      && forall i | 0 <= i < |fields| :: GoodSegment(Key(fields[i].key)) && GoodTree(fields[i].value)
    case _ => true
  }

  lemma GoodIsDistinct(v: Value)
    requires GoodTree(v)
    ensures DistinctTree(v)
  {
  }

  /** Every place in such a tree is one whose printed path parses back. */
  lemma {:induction false} PlacesAreGood(v: Value, p: Place)
    requires GoodTree(v) && Locate(v, p).Some?
    ensures GoodPlace(p)
    decreases |p|
  {
    if p != [] {
      PlacesAreGood(Child(v, p[0]).value, p[1..]);
      assert p == [p[0]] + p[1..];
    }
  }
}
