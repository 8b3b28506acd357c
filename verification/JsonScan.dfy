/** Scanning every string of a JSON body, with JSON nested in strings (hybrid_scanner.rs).

    The walk over the tree refines a fold over the flattened list of string leaves. */
module JsonScan {
  import opened Text
  import opened Pii
  import opened Json

  const MAX_NESTED_JSON_DEPTH := 2

  /** The text scan, the trimming of white space and the JSON parser are parameters. */
  datatype Scanner = Scanner(
    scan: string -> seq<PiiMatch>, trim: string -> string, parse: string -> Option<Value>, skip: seq<string>)

  // ---- What the walk visits ----

  function StartsWith(s: string, prefix: string): bool {
    |s| >= |prefix| && s[..|prefix|] == prefix
  }

  function EndsWith(s: string, suffix: string): bool {
    |s| >= |suffix| && s[|s| - |suffix|..] == suffix
  }

  predicate IsDataUri(s: string) {
    StartsWith(s, "data:image/") && FindFrom(s, ";base64,", 0).Some?
  }

  predicate IsBase64Source(fields: seq<Field>) {
    var j := FieldIndex(fields, "type");
    j < |fields| && fields[j].value == Str("base64")
  }

  function Arity(v: Value): nat {
    match v
    case Arr(elems) => |elems|
    case Obj(fields) => |fields|
    case _ => 0
  }

  function SegmentAt(v: Value, i: nat): (seg: Segment)
    requires i < Arity(v)
  {
    match v
    case Arr(_) => Index(i)
    case Obj(fields) => Key(fields[i].key)
  }

  function ChildAt(v: Value, i: nat): (w: Value)
    requires i < Arity(v)
    ensures w < v
  {
    match v
    case Arr(elems) => elems[i]
    case Obj(fields) => fields[i].value
  }

  /** Skipped fields, and the data of a base64 source block. */
  predicate Skipped(skip: seq<string>, v: Value, i: nat)
    requires i < Arity(v)
  {
    match v
    case Arr(_) => false
    case Obj(fields) => fields[i].key in skip || (IsBase64Source(fields) && fields[i].key == "data")
  }

  datatype Leaf = Leaf(place: Place, path: string, text: string)

  /** The strings to scan, in the order the walk meets them; v is at base. */
  function Leaves(skip: seq<string>, v: Value, base: Place): seq<Leaf>
    decreases v, Arity(v) + 1
  {
    match v
    case Str(s) => if IsDataUri(s) then [] else [Leaf(base, Print(base), s)]
    case _ => LeavesTo(skip, v, base, Arity(v))
  }

  /** Those under the first n children. */
  function LeavesTo(skip: seq<string>, v: Value, base: Place, n: nat): seq<Leaf>
    requires n <= Arity(v)
    decreases v, n
  {
    if n == 0 then [] else LeavesTo(skip, v, base, n - 1) + LeavesAt(skip, v, base, n - 1)
  }

  function LeavesAt(skip: seq<string>, v: Value, base: Place, i: nat): seq<Leaf>
    requires i < Arity(v)
    decreases v, 0
  {
    if Skipped(skip, v, i) then [] else Leaves(skip, ChildAt(v, i), base + [SegmentAt(v, i)])
  }

  // ---- One string leaf ----

  predicate LooksLikeJson(trimmed: string) {
    || (StartsWith(trimmed, "{") && EndsWith(trimmed, "}"))
    || (StartsWith(trimmed, "[") && EndsWith(trimmed, "]"))
  }

  function NestedValue(c: Scanner, s: string): Option<Value> {
    var trimmed := c.trim(s);
    if LooksLikeJson(trimmed) then c.parse(trimmed) else None
  }

  predicate OverlapsAny(matches: seq<PiiMatch>, start: nat, end: nat) {
    exists k :: 0 <= k < |matches| && start < matches[k].end && end > matches[k].start
  }

  ghost predicate ByteTaken(matches: seq<PiiMatch>, k: nat, start: nat, end: nat, q: nat) {
    k < |matches| && InSpan(matches[k], q) && start <= q < end
  }

  /** Among matches that are not empty, one overlaps a span if and only if some byte of the span is in it. */
  lemma OverlapsAnyIffByteTaken(matches: seq<PiiMatch>, start: nat, end: nat)
    requires start < end && forall k | 0 <= k < |matches| :: matches[k].start < matches[k].end
    ensures OverlapsAny(matches, start, end) <==> exists k: nat, q: nat :: ByteTaken(matches, k, start, end, q)
  {
    if OverlapsAny(matches, start, end) {
      var k: nat :| k < |matches| && start < matches[k].end && end > matches[k].start;
      var q := if start < matches[k].start then matches[k].start else start;
      assert ByteTaken(matches, k, start, end, q);
    }
  }

  function WithPath(found: seq<PiiMatch>, path: string): (r: seq<PiiMatch>)
    ensures |r| == |found| && forall k | 0 <= k < |r| :: r[k] == found[k].(jsonPath := Some(path))
  {
    seq(|found|, k requires 0 <= k < |found| => found[k].(jsonPath := Some(path)))
  }

  /** A nested match at the first place its value occurs in the outer string, unless something
      reported before overlaps it. */
  function Recover(s: string, path: string, m: PiiMatch, acc: seq<PiiMatch>): seq<PiiMatch> {
    match FindFrom(s, m.rawValue, 0)
    case None => []
    case Some(pos) =>
      if OverlapsAny(acc, pos, pos + |m.rawValue|) then []
      else [m.(start := pos, end := pos + |m.rawValue|, jsonPath := Some(path))]
  }

  function RecoverAll(s: string, path: string, inner: seq<PiiMatch>, acc: seq<PiiMatch>): seq<PiiMatch>
    decreases |inner|
  {
    if inner == [] then acc
    else RecoverAll(s, path, inner[1..], acc + Recover(s, path, inner[0], acc))
  }

  /** The matches reported after scanning some leaves on top of those in acc. */
  function Fold(c: Scanner, leaves: seq<Leaf>, depth: nat, acc: seq<PiiMatch>): seq<PiiMatch>
    requires depth <= MAX_NESTED_JSON_DEPTH
    decreases MAX_NESTED_JSON_DEPTH - depth, |leaves| + 1
  {
    if leaves == [] then acc
    else ScanLeaf(c, leaves[|leaves| - 1], depth, Fold(c, leaves[..|leaves| - 1], depth, acc))
  }

  function ScanLeaf(c: Scanner, leaf: Leaf, depth: nat, acc: seq<PiiMatch>): seq<PiiMatch>
    requires depth <= MAX_NESTED_JSON_DEPTH
    decreases MAX_NESTED_JSON_DEPTH - depth, 1
  {
    var path := leaf.path;
    RecoverAll(leaf.text, path, Inner(c, leaf.text, depth), acc + WithPath(c.scan(leaf.text), path))
  }

  /** What scanning the JSON nested in a string finds. */
  function Inner(c: Scanner, s: string, depth: nat): seq<PiiMatch>
    requires depth <= MAX_NESTED_JSON_DEPTH
    decreases MAX_NESTED_JSON_DEPTH - depth, 0
  {
    if depth == MAX_NESTED_JSON_DEPTH then []
    else match NestedValue(c, s)
      case None => []
      case Some(v) => Fold(c, Leaves(c.skip, v, []), depth + 1, [])
  }

  /** The text stands in braces or in brackets. */
  predicate Enclosed(t: string) {
    |t| > 0 && ((t[0] == '{' && t[|t| - 1] == '}') || (t[0] == '[' && t[|t| - 1] == ']'))
  }

  lemma EnclosedIffLooksLikeJson(t: string)
    ensures Enclosed(t) <==> LooksLikeJson(t)
  {
    if |t| > 0 {
      assert t[..1] == [t[0]] && t[|t| - 1..] == [t[|t| - 1]];
    }
  }

  /** The JSON in a string is walked if and only if the string, without the white space around it, stands in
      braces or in brackets and parses, and the string is the body's own or one level below. */
  lemma NestedIsWalked(c: Scanner, s: string, depth: nat)
    requires depth <= MAX_NESTED_JSON_DEPTH
    ensures Inner(c, s, depth)
            == if depth < 2 && Enclosed(c.trim(s)) && c.parse(c.trim(s)).Some?
               then Fold(c, Leaves(c.skip, c.parse(c.trim(s)).value, []), depth + 1, []) else []
  {
    EnclosedIffLooksLikeJson(c.trim(s));
  }

  lemma FoldSnoc(c: Scanner, leaves: seq<Leaf>, leaf: Leaf, depth: nat, acc: seq<PiiMatch>)
    requires depth <= MAX_NESTED_JSON_DEPTH
    ensures Fold(c, leaves + [leaf], depth, acc) == ScanLeaf(c, leaf, depth, Fold(c, leaves, depth, acc))
  {
    assert (leaves + [leaf])[..|leaves|] == leaves;
  }

  lemma {:induction false} FoldConcat(c: Scanner, a: seq<Leaf>, b: seq<Leaf>, depth: nat, acc: seq<PiiMatch>)
    requires depth <= MAX_NESTED_JSON_DEPTH
    ensures Fold(c, a + b, depth, acc) == Fold(c, b, depth, Fold(c, a, depth, acc))
    decreases |b|
  {
    if b == [] {
      assert a + b == a;
    } else {
      var front, last := b[..|b| - 1], b[|b| - 1];
      var mid := Fold(c, a, depth, acc);
      assert Fold(c, a + b, depth, acc) == ScanLeaf(c, last, depth, Fold(c, a + front, depth, acc)) by {
        assert a + b == a + front + [last];
        FoldSnoc(c, a + front, last, depth, acc);
      }
      assert Fold(c, b, depth, mid) == ScanLeaf(c, last, depth, Fold(c, front, depth, mid)) by {
        assert b == front + [last];
        FoldSnoc(c, front, last, depth, mid);
      }
      FoldConcat(c, a, front, depth, acc);
    }
  }

  lemma FoldNextChild(c: Scanner, v: Value, base: Place, i: nat, depth: nat, acc: seq<PiiMatch>)
    requires i < Arity(v) && depth <= MAX_NESTED_JSON_DEPTH
    ensures Fold(c, LeavesTo(c.skip, v, base, i + 1), depth, acc)
            == Fold(c, LeavesAt(c.skip, v, base, i), depth, Fold(c, LeavesTo(c.skip, v, base, i), depth, acc))
  {
    FoldConcat(c, LeavesTo(c.skip, v, base, i), LeavesAt(c.skip, v, base, i), depth, acc);
  }

  /** What child i adds to the walk: nothing if it is skipped, else its leaves. */
  lemma ChildIsWalked(c: Scanner, v: Value, base: Place, i: nat, depth: nat, acc: seq<PiiMatch>, child: Place)
    requires i < Arity(v) && depth <= MAX_NESTED_JSON_DEPTH && child == base + [SegmentAt(v, i)]
    ensures var before := Fold(c, LeavesTo(c.skip, v, base, i), depth, acc);
            Fold(c, LeavesTo(c.skip, v, base, i + 1), depth, acc)
            == if Skipped(c.skip, v, i) then before else Fold(c, Leaves(c.skip, ChildAt(v, i), child), depth, before)
    ensures Print(child) == Extend(Print(base), SegmentAt(v, i))
  {
    FoldNextChild(c, v, base, i, depth, acc);
    PrintSnoc(base, SegmentAt(v, i));
  }

  /** The walk over a container starts from what was reported before and ends behind its last child. */
  lemma WalkOfContainer(c: Scanner, v: Value, base: Place, depth: nat, acc: seq<PiiMatch>)
    requires (v.Obj? || v.Arr?) && depth <= MAX_NESTED_JSON_DEPTH
    ensures Fold(c, LeavesTo(c.skip, v, base, 0), depth, acc) == acc
    ensures Leaves(c.skip, v, base) == LeavesTo(c.skip, v, base, Arity(v))
  {
  }

  // ---- The walk ----

  method RecoverNested(s: string, path: string, inner: seq<PiiMatch>, matches: seq<PiiMatch>)
    returns (out: seq<PiiMatch>)
    ensures out == RecoverAll(s, path, inner, matches)
  {
    out := matches;
    assert inner[0..] == inner;
    for k := 0 to |inner|
      invariant RecoverAll(s, path, inner[k..], out) == RecoverAll(s, path, inner, matches)
    {
      var m := inner[k];
      assert inner[k..][0] == m && inner[k..][1..] == inner[k + 1..];
      out := out + Recover(s, path, m, out);
    }
  }

  /** The string itself, then the JSON it may hold. */
  method ScanString(c: Scanner, s: string, path: string, matches: seq<PiiMatch>, depth: nat, ghost place: Place)
    returns (out: seq<PiiMatch>)
    requires depth <= MAX_NESTED_JSON_DEPTH && path == Print(place)
    ensures out == ScanLeaf(c, Leaf(place, path, s), depth, matches)
    decreases MAX_NESTED_JSON_DEPTH - depth, 0
  {
    out := matches + WithPath(c.scan(s), path);
    var inner := [];
    if depth < MAX_NESTED_JSON_DEPTH {
      var nested := NestedValue(c, s);
      if nested.Some? {
        inner := ScanInner(c, nested.value, "", [], depth + 1, []);
      }
    }
    out := RecoverNested(s, path, inner, out);
  }

  method ScanInner(c: Scanner, value: Value, path: string, matches: seq<PiiMatch>, depth: nat, ghost place: Place)
    returns (out: seq<PiiMatch>)
    requires depth <= MAX_NESTED_JSON_DEPTH && path == Print(place)
    ensures out == Fold(c, Leaves(c.skip, value, place), depth, matches)
    decreases MAX_NESTED_JSON_DEPTH - depth, 1, value, 2
  {
    out := matches;
    match value {
      case Str(s) =>
        if !IsDataUri(s) {
          FoldSnoc(c, [], Leaf(place, path, s), depth, matches);
          out := ScanString(c, s, path, matches, depth, place);
        }
      case Obj(_) => out := ScanFields(c, value, path, matches, depth, place);
      case Arr(_) => out := ScanElems(c, value, path, matches, depth, place);
      case _ =>
    }
  }

  /** One field of an object: passed over, or walked. */
  method ScanField(c: Scanner, obj: Value, i: nat, isBase64Source: bool, path: string, matches: seq<PiiMatch>, depth: nat,
                   ghost place: Place, ghost acc: seq<PiiMatch>)
    returns (out: seq<PiiMatch>)
    requires obj.Obj? && i < |obj.fields| && depth <= MAX_NESTED_JSON_DEPTH && path == Print(place)
    requires isBase64Source == IsBase64Source(obj.fields)
    requires matches == Fold(c, LeavesTo(c.skip, obj, place, i), depth, acc)
    ensures out == Fold(c, LeavesTo(c.skip, obj, place, i + 1), depth, acc)
    decreases MAX_NESTED_JSON_DEPTH - depth, 1, obj, 0
  {
    var key, value := obj.fields[i].key, ChildAt(obj, i);
    ghost var child := place + [Key(key)];
    ChildIsWalked(c, obj, place, i, depth, acc, child);
    if key in c.skip || (isBase64Source && key == "data") {
      return matches;
    }
    out := ScanInner(c, value, Extend(path, Key(key)), matches, depth, child);
  }

  method ScanFields(c: Scanner, obj: Value, path: string, matches: seq<PiiMatch>, depth: nat, ghost place: Place)
    returns (out: seq<PiiMatch>)
    requires obj.Obj? && depth <= MAX_NESTED_JSON_DEPTH && path == Print(place)
    ensures out == Fold(c, Leaves(c.skip, obj, place), depth, matches)
    decreases MAX_NESTED_JSON_DEPTH - depth, 1, obj, 1
  {
    out := matches;
    var isBase64Source := IsBase64Source(obj.fields);
    WalkOfContainer(c, obj, place, depth, matches);
    for i := 0 to |obj.fields|
      invariant out == Fold(c, LeavesTo(c.skip, obj, place, i), depth, matches)
    {
      out := ScanField(c, obj, i, isBase64Source, path, out, depth, place, matches);
    }
  }

  method ScanElems(c: Scanner, list: Value, path: string, matches: seq<PiiMatch>, depth: nat, ghost place: Place)
    returns (out: seq<PiiMatch>)
    requires list.Arr? && depth <= MAX_NESTED_JSON_DEPTH && path == Print(place)
    ensures out == Fold(c, Leaves(c.skip, list, place), depth, matches)
    decreases MAX_NESTED_JSON_DEPTH - depth, 1, list, 0
  {
    out := matches;
    WalkOfContainer(c, list, place, depth, matches);
    for i := 0 to |list.elems|
      invariant out == Fold(c, LeavesTo(c.skip, list, place, i), depth, matches)
    {
      ghost var child := place + [Index(i)];
      ChildIsWalked(c, list, place, i, depth, matches, child);
      out := ScanInner(c, ChildAt(list, i), Extend(path, Index(i)), out, depth, child);
    }
  }

  // ---- One scan per top-level entry ----

  datatype Entry = Entry(place: Place, value: Value)

  /** The top-level values that are scanned on their own. */
  function Entries(skip: seq<string>, v: Value): seq<Entry> {
    if v.Obj? || v.Arr? then EntriesTo(skip, v, Arity(v)) else [Entry([], v)]
  }

  function EntriesTo(skip: seq<string>, v: Value, n: nat): seq<Entry>
    requires n <= Arity(v)
  {
    if n == 0 then []
    else EntriesTo(skip, v, n - 1)
         + if Skipped(skip, v, n - 1) then [] else [Entry([SegmentAt(v, n - 1)], ChildAt(v, n - 1))]
  }

  /** Each entry scanned from nothing, the results one after the other. */
  function Spread(c: Scanner, entries: seq<Entry>): seq<PiiMatch> {
    if entries == [] then []
    else
      var last := entries[|entries| - 1];
      Spread(c, entries[..|entries| - 1]) + Fold(c, Leaves(c.skip, last.value, last.place), 0, [])
  }

  ghost predicate Tracks(pairs: seq<(string, Value)>, entries: seq<Entry>) {
    && |pairs| == |entries|
    && forall k | 0 <= k < |pairs| :: pairs[k] == (Print(entries[k].place), entries[k].value)
  }

  /** One more child: passed over, or an entry of its own. */
  lemma TracksNext(skip: seq<string>, v: Value, i: nat, pairs: seq<(string, Value)>)
    requires i < Arity(v) && Tracks(pairs, EntriesTo(skip, v, i))
    ensures Skipped(skip, v, i) ==> Tracks(pairs, EntriesTo(skip, v, i + 1))
    ensures !Skipped(skip, v, i) ==>
              Tracks(pairs + [(Extend("", SegmentAt(v, i)), ChildAt(v, i))], EntriesTo(skip, v, i + 1))
  {
    PrintSnoc([], SegmentAt(v, i));
    assert [] + [SegmentAt(v, i)] == [SegmentAt(v, i)];
  }

  method CollectEntries(skip: seq<string>, json: Value) returns (entries: seq<(string, Value)>)
    ensures Tracks(entries, Entries(skip, json))
  {
    entries := [];
    match json {
      case Obj(fields) =>
        var isBase64Source := IsBase64Source(fields);
        for i := 0 to |fields|
          invariant Tracks(entries, EntriesTo(skip, json, i))
        {
          TracksNext(skip, json, i, entries);
          if !(fields[i].key in skip || (isBase64Source && fields[i].key == "data")) {
            entries := entries + [(Extend("", Key(fields[i].key)), fields[i].value)];
          }
        }
      case Arr(elems) =>
        for i := 0 to |elems|
          invariant Tracks(entries, EntriesTo(skip, json, i))
        {
          TracksNext(skip, json, i, entries);
          entries := entries + [(Extend("", Index(i)), elems[i])];
        }
      case _ => entries := [("", json)];
    }
  }

  ghost function Scanned(c: Scanner, json: Value): seq<PiiMatch> {
    var entries := Entries(c.skip, json);
    if |entries| <= 1 then Fold(c, Leaves(c.skip, json, []), 0, []) else Spread(c, entries)
  }

  lemma SpreadNext(c: Scanner, entries: seq<Entry>, k: nat)
    requires k < |entries|
    ensures Spread(c, entries[..k + 1])
            == Spread(c, entries[..k]) + Fold(c, Leaves(c.skip, entries[k].value, entries[k].place), 0, [])
  {
    assert entries[..k + 1][..k] == entries[..k];
  }

  method ScanJson(c: Scanner, json: Value) returns (matches: seq<PiiMatch>)
    ensures matches == Scanned(c, json)
  {
    var pairs := CollectEntries(c.skip, json);
    if |pairs| <= 1 {
      matches := ScanInner(c, json, "", [], 0, []);
      return;
    }
    matches := [];
    ghost var entries := Entries(c.skip, json);
    for k := 0 to |pairs|
      invariant matches == Spread(c, entries[..k])
    {
      assert pairs[k] == (Print(entries[k].place), entries[k].value);
      var part := ScanInner(c, pairs[k].1, pairs[k].0, [], 0, entries[k].place);
      SpreadNext(c, entries, k);
      matches := matches + part;
    }
    assert entries[..|entries|] == entries;
  }
}
