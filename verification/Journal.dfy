/** The request journal kept in a crash buffer (crash_buffer.rs).

    Start and completion records are pipe-delimited lines. After a crash the journal is read
    back from whatever window the ring still holds, so its oldest line may be cut. */
module Journal {
  import opened Text
  import opened CrashBuffer
  import opened RequestIds
  import Decimal

  const I64_LIMIT: int := 0x8000_0000_0000_0000
  const U32_LIMIT: int := 0x1_0000_0000

  /** The size the journal is opened with, and the ring of a journal of that size. */
  const JOURNAL_DEFAULT_SIZE: nat := 64 * 1024
  const JOURNAL_RING: nat := JOURNAL_DEFAULT_SIZE - HEADER_SIZE

  datatype Entry = Entry(id: Uuid, timestamp: int, mappingCount: int, completed: bool) {
    // The widths of the timestamp and count fields.
    predicate Valid() {
      -I64_LIMIT <= timestamp < I64_LIMIT && 0 <= mappingCount < U32_LIMIT
    }
  }

  // ---- One record ----

  /** The part of a line after "J|", with an arbitrary last field. */
  function Fields(x: UuidText, e: Entry, last: string): string {
    x.print_(e.id) + (['|'] + (Decimal.PrintInt(e.timestamp)
      + (['|'] + (Decimal.PrintInt(e.mappingCount) + (['|'] + last)))))
  }

  function Flag(e: Entry): string {
    if e.completed then "1" else "0"
  }

  function ToLine(x: UuidText, e: Entry): string {
    "J|" + Fields(x, e, Flag(e))
  }

  function FromParts(x: UuidText, parts: seq<string>): Option<Entry> {
    if |parts| != 5 || parts[0] != "J" then None
    else match x.parse(parts[1])
      case None => None
      case Some(id) =>
        match Decimal.ParseInt(parts[2], true, -I64_LIMIT, I64_LIMIT)
        case None => None
        case Some(timestamp) =>
          match Decimal.ParseInt(parts[3], false, 0, U32_LIMIT)
          case None => None
          case Some(count) => Some(Entry(id, timestamp, count, parts[4] == "1"))
  }

  function FromLine(x: UuidText, line: string): Option<Entry> {
    FromParts(x, Split(line, '|'))
  }

  lemma SplitFields(x: UuidText, e: Entry, last: string)
    requires x.Lawful() && '|' !in last
    ensures Split(Fields(x, e, last), '|')
         == [x.print_(e.id), Decimal.PrintInt(e.timestamp), Decimal.PrintInt(e.mappingCount), last]
  {
    var u, t, n := x.print_(e.id), Decimal.PrintInt(e.timestamp), Decimal.PrintInt(e.mappingCount);
    assert Plain(u);
    Decimal.PrintIntChars(e.timestamp);
    Decimal.PrintIntChars(e.mappingCount);
    SplitLastField(last, '|');
    SplitField(n, '|', last);
    SplitField(t, '|', n + (['|'] + last));
    SplitField(u, '|', t + (['|'] + (n + (['|'] + last))));
  }

  lemma MarkedLine(fields: string)
    ensures "J|" + fields == "J" + (['|'] + fields)
  {
  }

  lemma SplitLine(x: UuidText, e: Entry, last: string)
    requires x.Lawful() && '|' !in last
    ensures Split("J|" + Fields(x, e, last), '|')
            == ["J", x.print_(e.id), Decimal.PrintInt(e.timestamp), Decimal.PrintInt(e.mappingCount), last]
  {
    var fields := Fields(x, e, last);
    SplitFields(x, e, last);
    SplitField("J", '|', fields);
    MarkedLine(fields);
  }

  lemma PartsRoundTrip(x: UuidText, e: Entry, last: string)
    requires x.Lawful() && e.Valid()
    ensures FromParts(x, ["J", x.print_(e.id), Decimal.PrintInt(e.timestamp), Decimal.PrintInt(e.mappingCount), last])
            == Some(e.(completed := last == "1"))
  {
    assert x.parse(x.print_(e.id)) == Some(e.id);
    Decimal.ParseIntOfPrint(e.timestamp, true, -I64_LIMIT, I64_LIMIT);
    Decimal.ParseIntOfPrint(e.mappingCount, false, 0, U32_LIMIT);
  }

  /** The last field decides the flag; the other fields read back as they were printed. */
  lemma ParseOfFields(x: UuidText, e: Entry, last: string)
    requires x.Lawful() && e.Valid() && '|' !in last
    ensures FromLine(x, "J|" + Fields(x, e, last)) == Some(e.(completed := last == "1"))
  {
    SplitLine(x, e, last);
    PartsRoundTrip(x, e, last);
  }

  lemma EntryRoundTrip(x: UuidText, e: Entry)
    requires x.Lawful() && e.Valid()
    ensures FromLine(x, ToLine(x, e)) == Some(e)
  {
    ParseOfFields(x, e, Flag(e));
  }

  /** The line is "J|a|b|c|d". */
  predicate FiveFields(line: string, a: string, b: string, c: string, d: string) {
    && '|' !in a && '|' !in b && '|' !in c && '|' !in d
    && line == "J" + (['|'] + (a + (['|'] + (b + (['|'] + (c + (['|'] + d)))))))
  }

  /** The four fields are those of the entry. */
  ghost predicate ReadsAs(x: UuidText, a: string, b: string, c: string, d: string, e: Entry) {
    && x.parse(a) == Some(e.id)
    && Decimal.ParseInt(b, true, -0x8000_0000_0000_0000, 0x8000_0000_0000_0000) == Some(e.timestamp)
    && Decimal.ParseInt(c, false, 0, 0x1_0000_0000) == Some(e.mappingCount)
    && e.completed == (d == "1")
  }

  lemma SplitFive(a: string, b: string, c: string, d: string, line: string)
    requires FiveFields(line, a, b, c, d)
    ensures Split(line, '|') == ["J", a, b, c, d]
  {
    SplitLastField(d, '|');
    SplitField(c, '|', d);
    SplitField(b, '|', c + (['|'] + d));
    SplitField(a, '|', b + (['|'] + (c + (['|'] + d))));
    SplitField("J", '|', a + (['|'] + (b + (['|'] + (c + (['|'] + d))))));
  }

  lemma FiveOfSplit(line: string)
    requires |Split(line, '|')| == 5 && Split(line, '|')[0] == "J"
    ensures var f := Split(line, '|'); FiveFields(line, f[1], f[2], f[3], f[4])
  {
    var r1 := SplitHead(line, '|');
    var r2 := SplitHead(r1, '|');
    var r3 := SplitHead(r2, '|');
    var r4 := SplitHead(r3, '|');
    var r5 := SplitHead(r4, '|');
  }

  /** A line reads as an entry if and only if it is "J|a|b|c|d" and its four fields are those of the entry. */
  lemma FromLineIff(x: UuidText, line: string, e: Entry)
    ensures FromLine(x, line) == Some(e)
            <==> exists a, b, c, d :: FiveFields(line, a, b, c, d) && ReadsAs(x, a, b, c, d, e)
  {
    var f := Split(line, '|');
    if FromLine(x, line) == Some(e) {
      FiveOfSplit(line);
      assert ReadsAs(x, f[1], f[2], f[3], f[4], e);
    }
    if a, b, c, d :| FiveFields(line, a, b, c, d) && ReadsAs(x, a, b, c, d, e) {
      SplitFive(a, b, c, d, line);
    }
  }

  /** Text on one line. */
  predicate OneLine(s: string) {
    '\n' !in s && '\r' !in s && '\0' !in s
  }

  lemma FieldsShape(x: UuidText, e: Entry, last: string)
    requires x.Lawful() && Plain(last)
    ensures OneLine(Fields(x, e, last)) && Count(Fields(x, e, last), '|') == 3
  {
    assert Plain(x.print_(e.id));
    Decimal.PrintIntChars(e.timestamp);
    Decimal.PrintIntChars(e.mappingCount);
    SplitFields(x, e, last);
  }

  lemma LineShape(x: UuidText, e: Entry)
    requires x.Lawful()
    ensures var line := ToLine(x, e);
            && OneLine(line)
            && |line| > 2 && line[..2] == "J|" && line[2..] == Fields(x, e, Flag(e))
            && Count(line[2..], '|') == 3 && Count(line, '|') == 4
  {
    FieldsShape(x, e, Flag(e));
    CountConcat("J|", Fields(x, e, Flag(e)), '|');
    assert "J|"[1..] == "|";
  }

  lemma LineLength(x: UuidText, e: Entry)
    requires x.Hyphenated()
    ensures |ToLine(x, e)| == 42 + |Decimal.PrintInt(e.timestamp)| + |Decimal.PrintInt(e.mappingCount)|
  {
  }

  lemma Powers()
    ensures Decimal.Pow10(1) == 10 && Decimal.Pow10(2) == 100
    ensures Decimal.Pow10(9) == 1_000_000_000 && Decimal.Pow10(10) == 10_000_000_000
    ensures Decimal.Pow10(19) == 10_000_000_000_000_000_000
  {
  }

  /** Whatever the fields hold, a line is short. */
  lemma LinesAreShort(x: UuidText, e: Entry)
    requires x.Hyphenated() && e.Valid()
    ensures |ToLine(x, e)| <= 72
  {
    LineLength(x, e);
    Powers();
    Decimal.PrintNatLength(if e.timestamp < 0 then -e.timestamp else e.timestamp, 19);
    Decimal.PrintNatLength(e.mappingCount, 10);
  }

  /** A line that has lost its beginning never reads as a record. */
  lemma CutLineNeverParses(x: UuidText, e: Entry, k: nat)
    requires x.Lawful() && 0 < k <= |ToLine(x, e)|
    ensures FromLine(x, ToLine(x, e)[k..]) == None
  {
    var line, cut := ToLine(x, e), ToLine(x, e)[k..];
    LineShape(x, e);
    if k == 1 {
      assert cut[0] == '|';
      assert Split(cut, '|')[0] == [];
    } else {
      CountConcat(line[2..k], cut, '|');
      assert line[2..] == line[2..k] + cut;
    }
  }

  // ---- Reading a text of records ----

  /** What one line contributes. */
  function Read(x: UuidText, line: string): seq<Entry> {
    match FromLine(x, line) case None => [] case Some(e) => [e]
  }

  function ParseLines(x: UuidText, lines: seq<string>): seq<Entry> {
    if lines == [] then [] else Read(x, lines[0]) + ParseLines(x, lines[1..])
  }

  function ParseText(x: UuidText, s: string): seq<Entry> {
    ParseLines(x, Lines(s))
  }

  lemma {:induction false} ParseLinesAppend(x: UuidText, lines: seq<string>, line: string)
    ensures ParseLines(x, lines + [line]) == ParseLines(x, lines) + Read(x, line)
  {
    if lines == [] {
      assert ([line])[1..] == [];
    } else {
      ParseLinesAppend(x, lines[1..], line);
      assert (lines + [line])[1..] == lines[1..] + [line];
    }
  }

  lemma ParseFirstLine(x: UuidText, line: string, rest: string)
    requires '\n' !in line && '\r' !in line
    ensures ParseText(x, line + ['\n'] + rest) == Read(x, line) + ParseText(x, rest)
  {
    LinesFirst([], line, rest);
    assert [] + line == line;
    assert ([line] + Lines(rest))[1..] == Lines(rest);
  }

  ghost function CompletedIds(es: seq<Entry>): set<Uuid> {
    set e | e in es && e.completed :: e.id
  }

  lemma CompletedIdsSnoc(es: seq<Entry>, e: Entry)
    ensures CompletedIds(es + [e]) == CompletedIds(es) + if e.completed then {e.id} else {}
  {
  }

  function Keep(es: seq<Entry>, done: set<Uuid>): seq<Entry> {
    if es == [] then []
    else
      var last := es[|es| - 1];
      Keep(es[..|es| - 1], done) + if !last.completed && last.id !in done then [last] else []
  }

  lemma {:induction false} KeepMembers(es: seq<Entry>, done: set<Uuid>)
    ensures forall e :: e in Keep(es, done) <==> e in es && !e.completed && e.id !in done
    decreases |es|
  {
    if es != [] {
      KeepMembers(es[..|es| - 1], done);
      assert es == es[..|es| - 1] + [es[|es| - 1]];
    }
  }

  /** The records of es not marked complete by es itself, in order. */
  ghost function Incomplete(es: seq<Entry>): seq<Entry> {
    Keep(es, CompletedIds(es))
  }

  /** What a write leaves of a window when the process dies after storing w bytes of it. */
  function Torn(window: string, line: string, w: nat): string
    requires w <= |line| + 1 && window != []
  {
    Overwritten(window, (line + "\n")[..w])
  }

  // ---- Whole runs ----

  /** The bytes a run of records writes. */
  function Stream(x: UuidText, run: seq<Entry>): string {
    if run == [] then [] else ToLine(x, run[0]) + ['\n'] + Stream(x, run[1..])
  }

  function RunLines(x: UuidText, run: seq<Entry>): seq<string> {
    if run == [] then [] else [ToLine(x, run[0])] + RunLines(x, run[1..])
  }

  ghost predicate ValidRun(x: UuidText, run: seq<Entry>) {
    x.Lawful() && forall e | e in run :: e.Valid()
  }

  lemma StreamFirst(x: UuidText, run: seq<Entry>, line: string)
    requires run != [] && line == ToLine(x, run[0]) + ['\n']
    ensures Stream(x, run) == line + Stream(x, run[1..])
  {
  }

  lemma ConcatAssoc(a: string, b: string, c: string)
    ensures a + (b + c) == a + b + c
  {
  }

  lemma {:induction false} StreamConcat(x: UuidText, run: seq<Entry>, more: seq<Entry>, joined: seq<Entry>)
    requires joined == run + more
    ensures Stream(x, joined) == Stream(x, run) + Stream(x, more)
  {
    if run == [] {
      assert joined == more;
    } else {
      var line := ToLine(x, run[0]) + ['\n'];
      assert joined[1..] == run[1..] + more;
      StreamConcat(x, run[1..], more, joined[1..]);
      StreamFirst(x, run, line);
      StreamFirst(x, joined, line);
      ConcatAssoc(line, Stream(x, run[1..]), Stream(x, more));
    }
  }

  lemma {:induction false} StreamIsJoined(x: UuidText, run: seq<Entry>)
    ensures Joined(RunLines(x, run)) == Stream(x, run)
  {
    if run != [] {
      StreamIsJoined(x, run[1..]);
      JoinedCons(ToLine(x, run[0]), RunLines(x, run[1..]));
    }
  }

  lemma {:induction false} RunLinesHaveNoNul(x: UuidText, run: seq<Entry>)
    requires x.Lawful()
    ensures forall line | line in RunLines(x, run) :: '\0' !in line
  {
    if run != [] {
      RunLinesHaveNoNul(x, run[1..]);
      LineShape(x, run[0]);
    }
  }

  /** The first record from which on the run fits in n bytes. */
  function Cut(x: UuidText, run: seq<Entry>, n: nat): (k: nat)
    ensures k <= |run|
  {
    if |Stream(x, run)| <= n then 0 else 1 + Cut(x, run[1..], n)
  }

  /** The records whose lines lie wholly within the last n bytes of the run. */
  function Survivors(x: UuidText, run: seq<Entry>, n: nat): seq<Entry> {
    run[Cut(x, run, n)..]
  }

  lemma {:induction false} StreamParses(x: UuidText, run: seq<Entry>)
    requires ValidRun(x, run)
    ensures ParseText(x, Stream(x, run)) == run
  {
    if run != [] {
      StreamParses(x, run[1..]);
      LineShape(x, run[0]);
      EntryRoundTrip(x, run[0]);
      ParseFirstLine(x, ToLine(x, run[0]), Stream(x, run[1..]));
    }
  }

  lemma CutInsideLine(n: nat, line: string, tail: string)
    requires |tail| < n <= |line| + 1 + |tail|
    ensures Last(n, line + ['\n'] + tail) == line[|line| + 1 + |tail| - n..] + ['\n'] + tail
  {
    var k := |line| + 1 + |tail| - n;
    assert line + ['\n'] + tail == line[..k] + (line[k..] + ['\n'] + tail);
  }

  lemma CutWindowParses(x: UuidText, e: Entry, k: nat, tail: string)
    requires x.Lawful() && 0 < k <= |ToLine(x, e)|
    ensures ParseText(x, ToLine(x, e)[k..] + ['\n'] + tail) == ParseText(x, tail)
  {
    LineShape(x, e);
    ParseFirstLine(x, ToLine(x, e)[k..], tail);
    CutLineNeverParses(x, e, k);
  }

  lemma CutLineDisappears(x: UuidText, e: Entry, line: string, tail: string, n: nat)
    requires x.Lawful() && line == ToLine(x, e) && n < |line| + 1 + |tail|
    ensures ParseText(x, Last(n, line + ['\n'] + tail)) == ParseText(x, Last(n, tail))
  {
    if |tail| >= n {
      LastOfSuffix(n, line + ['\n'], tail);
    } else {
      CutInsideLine(n, line, tail);
      CutWindowParses(x, e, |line| + 1 + |tail| - n, tail);
    }
  }

  /** The cut oldest line disappears and every whole line reads back. */
  lemma {:induction false} WindowParses(x: UuidText, run: seq<Entry>, n: nat)
    requires ValidRun(x, run)
    ensures ParseText(x, Last(n, Stream(x, run))) == Survivors(x, run, n)
  {
    if |Stream(x, run)| <= n {
      StreamParses(x, run);
    } else {
      var line, tail := ToLine(x, run[0]), Stream(x, run[1..]);
      WindowParses(x, run[1..], n);
      CutLineDisappears(x, run[0], line, tail, n);
    }
  }

  /** What the journal holds after a run on a new file. */
  ghost function JournalWindow(x: UuidText, run: seq<Entry>, size: nat): (w: string)
    ensures |w| == size
  {
    WindowAfter(Zeros(size), RunLines(x, run))
  }

  lemma JournalReadsBack(x: UuidText, run: seq<Entry>, size: nat)
    requires ValidRun(x, run)
    ensures TrimNul(JournalWindow(x, run, size)) == Last(size, Stream(x, run))
    ensures ParseText(x, TrimNul(JournalWindow(x, run, size))) == Survivors(x, run, size)
  {
    RunLinesHaveNoNul(x, run);
    FreshRunReadsBack(size, RunLines(x, run));
    StreamIsJoined(x, run);
    WindowParses(x, run, size);
  }

  lemma {:induction false} SuffixIsShorter(x: UuidText, run: seq<Entry>, k: nat)
    requires k <= |run|
    ensures |Stream(x, run[k..])| <= |Stream(x, run)|
  {
    if k == 0 {
      assert run[0..] == run;
    } else {
      SuffixIsShorter(x, run[1..], k - 1);
      assert run[1..][k - 1..] == run[k..];
    }
  }

  lemma {:induction false} FitsIffAfterCut(x: UuidText, run: seq<Entry>, n: nat, k: nat)
    requires k <= |run|
    ensures Cut(x, run, n) <= k <==> |Stream(x, run[k..])| <= n
  {
    if |Stream(x, run)| <= n {
      SuffixIsShorter(x, run, k);
    } else if k == 0 {
      assert run[0..] == run;
    } else {
      FitsIffAfterCut(x, run[1..], n, k - 1);
      assert run[1..][k - 1..] == run[k..];
    }
  }

  /** Record k lies wholly in a window of the given size. */
  ghost predicate InWindow(x: UuidText, run: seq<Entry>, size: nat, k: int) {
    0 <= k < |run| && |Stream(x, run[k..])| <= size
  }

  ghost function Reported(x: UuidText, run: seq<Entry>, size: nat): seq<Entry> {
    Incomplete(ParseText(x, TrimNul(JournalWindow(x, run, size))))
  }

  /** What is reported after any run: exactly the start records that lie wholly in the window and
      have no completion record there. Incomplete keeps their order. */
  lemma ReportedExactly(x: UuidText, run: seq<Entry>, size: nat, e: Entry)
    requires ValidRun(x, run)
    ensures Reported(x, run, size) == Incomplete(run[Cut(x, run, size)..])
    ensures e in Reported(x, run, size) <==>
              && (exists k :: InWindow(x, run, size, k) && run[k] == e && !e.completed)
              && (forall k :: InWindow(x, run, size, k) && run[k].id == e.id ==> !run[k].completed)
  {
    JournalReadsBack(x, run, size);
    var s, cut := Survivors(x, run, size), Cut(x, run, size);
    KeepMembers(s, CompletedIds(s));
    forall k: int | 0 <= k < |run|
      ensures InWindow(x, run, size, k) <==> cut <= k
    {
      FitsIffAfterCut(x, run, size, k);
    }
    forall k | InWindow(x, run, size, k)
      ensures run[k] in s
    {
      assert run[k] == s[k - cut];
    }
    forall f | f in s
      ensures exists k :: InWindow(x, run, size, k) && run[k] == f
    {
      var j :| 0 <= j < |s| && s[j] == f;
      assert InWindow(x, run, size, cut + j) && run[cut + j] == f;
    }
  }

  /** Positions in increasing order. */
  predicate Increasing(ks: seq<nat>) {
    forall a, b | 0 <= a < b < |ks| :: ks[a] < ks[b]
  }

  /** The records of es at the given positions, in their order. */
  ghost predicate PicksOut(es: seq<Entry>, ks: seq<nat>, picked: seq<Entry>) {
    && Increasing(ks) && |picked| == |ks|
    && forall a | 0 <= a < |ks| :: ks[a] < |es| && picked[a] == es[ks[a]]
  }

  ghost predicate PendingAt(es: seq<Entry>, k: nat) {
    k < |es| && !es[k].completed && forall j | 0 <= j < |es| && es[j].id == es[k].id :: !es[j].completed
  }

  lemma IncreasingSnoc(ks: seq<nat>, n: nat)
    requires Increasing(ks) && forall k | k in ks :: k < n
    ensures Increasing(ks + [n])
  {
    forall a, b | 0 <= a < b < |ks + [n]|
      ensures (ks + [n])[a] < (ks + [n])[b]
    {
      if b == |ks| {
        assert ks[a] in ks;
      }
    }
  }

  lemma KeepSnoc(es: seq<Entry>, e: Entry, done: set<Uuid>)
    ensures Keep(es + [e], done) == Keep(es, done) + if !e.completed && e.id !in done then [e] else []
  {
    assert (es + [e])[..|es|] == es;
  }

  lemma PicksMore(es: seq<Entry>, ks: seq<nat>, picked: seq<Entry>, e: Entry)
    requires PicksOut(es, ks, picked)
    ensures PicksOut(es + [e], ks, picked) && PicksOut(es + [e], ks + [|es|], picked + [e])
  {
    forall k | k in ks
      ensures k < |es|
    {
      var a :| 0 <= a < |ks| && ks[a] == k;
      assert ks[a] < |es|;
    }
    IncreasingSnoc(ks, |es|);
  }

  lemma KeepOneMore(front: seq<Entry>, e: Entry, done: set<Uuid>, before: seq<nat>) returns (ks: seq<nat>)
    requires PicksOut(front, before, Keep(front, done))
    requires forall k: nat :: k in before <==> k < |front| && !front[k].completed && front[k].id !in done
    ensures PicksOut(front + [e], ks, Keep(front + [e], done))
    ensures forall k: nat ::
              k in ks <==> k < |front + [e]| && !(front + [e])[k].completed && (front + [e])[k].id !in done
  {
    var es := front + [e];
    PicksMore(front, before, Keep(front, done), e);
    KeepSnoc(front, e, done);
    if !e.completed && e.id !in done {
      ks := before + [|front|];
    } else {
      ks := before;
      assert Keep(front, done) + [] == Keep(front, done);
    }
    assert forall k | 0 <= k < |front| :: es[k] == front[k];
  }

  lemma {:induction false} KeepPicks(es: seq<Entry>, done: set<Uuid>) returns (ks: seq<nat>)
    ensures PicksOut(es, ks, Keep(es, done))
    ensures forall k: nat :: k in ks <==> k < |es| && !es[k].completed && es[k].id !in done
    decreases |es|
  {
    ks := [];
    if es != [] {
      var front, e := es[..|es| - 1], es[|es| - 1];
      assert es == front + [e];
      var before := KeepPicks(front, done);
      ks := KeepOneMore(front, e, done, before);
    }
  }

  /** The records not marked complete, each at its own place, in the order in which they were read. */
  lemma IncompletePicks(es: seq<Entry>) returns (ks: seq<nat>)
    ensures PicksOut(es, ks, Incomplete(es)) && forall k: nat :: k in ks <==> PendingAt(es, k)
  {
    var done := CompletedIds(es);
    ks := KeepPicks(es, done);
    forall k: nat | k < |es|
      ensures es[k].id in done <==> exists j :: 0 <= j < |es| && es[j].id == es[k].id && es[j].completed
    {
      if es[k].id in done {
        var e :| e in es && e.completed && e.id == es[k].id;
        var j :| 0 <= j < |es| && es[j] == e;
      }
      if j :| 0 <= j < |es| && es[j].id == es[k].id && es[j].completed {
        assert es[j] in es;
      }
    }
  }

  /** Record k of the run lies wholly in the window, is a start, and has no completion there. */
  ghost predicate PendingInWindow(x: UuidText, run: seq<Entry>, size: nat, k: nat) {
    && InWindow(x, run, size, k) && !run[k].completed
    && forall j | InWindow(x, run, size, j) && run[j].id == run[k].id :: !run[j].completed
  }

  /** The list holds exactly those records of the run, each as often as it was written, in their order. */
  ghost predicate ListsPending(x: UuidText, run: seq<Entry>, size: nat, result: seq<Entry>) {
    exists ks :: PicksOut(run, ks, result) && forall k: nat :: k in ks <==> PendingInWindow(x, run, size, k)
  }

  lemma Shifted(run: seq<Entry>, cut: nat, ks: seq<nat>, picked: seq<Entry>) returns (js: seq<nat>)
    requires cut <= |run| && PicksOut(run[cut..], ks, picked)
    ensures PicksOut(run, js, picked) && forall k: nat :: k in js <==> k >= cut && k - cut in ks
  {
    js := seq(|ks|, a requires 0 <= a < |ks| => cut + ks[a]);
    forall k: nat
      ensures k in js <==> k >= cut && k - cut in ks
    {
      if k in js {
        var a :| 0 <= a < |js| && js[a] == k;
        assert ks[a] in ks;
      }
      if k >= cut && k - cut in ks {
        var a :| 0 <= a < |ks| && ks[a] == k - cut;
        assert js[a] in js;
      }
    }
    forall a | 0 <= a < |js|
      ensures js[a] < |run| && picked[a] == run[js[a]]
    {
      assert ks[a] < |run[cut..]| && picked[a] == run[cut..][ks[a]];
    }
  }

  lemma PendingFromCut(x: UuidText, run: seq<Entry>, size: nat, cut: nat, k: nat)
    requires cut <= k < |run| && forall j: nat | j < |run| :: InWindow(x, run, size, j) <==> cut <= j
    ensures PendingInWindow(x, run, size, k) <==> PendingAt(run[cut..], k - cut)
  {
    var rest := run[cut..];
    assert rest[k - cut] == run[k];
    assert forall j | cut <= j < |run| :: rest[j - cut] == run[j];
    assert forall j | 0 <= j < |rest| :: rest[j] == run[cut + j];
  }

  lemma CutIsWindow(x: UuidText, run: seq<Entry>, size: nat)
    ensures forall j: nat | j < |run| :: InWindow(x, run, size, j) <==> Cut(x, run, size) <= j
  {
    forall k: nat | k < |run|
      ensures InWindow(x, run, size, k) <==> Cut(x, run, size) <= k
    {
      FitsIffAfterCut(x, run, size, k);
    }
  }

  lemma SuffixLists(x: UuidText, run: seq<Entry>, size: nat, cut: nat, result: seq<Entry>)
    requires cut <= |run| && forall j: nat | j < |run| :: InWindow(x, run, size, j) <==> cut <= j
    requires result == Incomplete(run[cut..])
    ensures ListsPending(x, run, size, result)
  {
    var ks := IncompletePicks(run[cut..]);
    var js := Shifted(run, cut, ks, result);
    forall k: nat
      ensures k in js <==> PendingInWindow(x, run, size, k)
    {
      if cut <= k < |run| {
        PendingFromCut(x, run, size, cut, k);
      }
    }
  }

  /** What is reported after any run, as a list. */
  lemma ReportedInOrder(x: UuidText, run: seq<Entry>, size: nat)
    requires ValidRun(x, run)
    ensures ListsPending(x, run, size, Reported(x, run, size))
  {
    JournalReadsBack(x, run, size);
    CutIsWindow(x, run, size);
    SuffixLists(x, run, size, Cut(x, run, size), Incomplete(run[Cut(x, run, size)..]));
  }

  /** A request with a completion record after all its start records is never reported. */
  lemma CompletedNeverReported(x: UuidText, run: seq<Entry>, size: nat, c: nat, e: Entry)
    requires ValidRun(x, run)
    requires c < |run| && run[c].completed
    requires forall k | c < k < |run| && run[k].id == run[c].id :: run[k].completed
    requires e in Reported(x, run, size)
    ensures e.id != run[c].id
  {
    ReportedExactly(x, run, size, e);
    var k :| InWindow(x, run, size, k) && run[k] == e && !e.completed;
    if k < c {
      SuffixIsShorter(x, run[k..], c - k);
      assert run[k..][c - k..] == run[c..];
      assert InWindow(x, run, size, c);
    }
  }

  /** A request that never completed is reported, record by record, for every whole line in the window. */
  lemma PendingAlwaysReported(x: UuidText, run: seq<Entry>, size: nat, k: nat)
    requires ValidRun(x, run) && InWindow(x, run, size, k)
    requires forall i | 0 <= i < |run| && run[i].id == run[k].id :: !run[i].completed
    ensures run[k] in Reported(x, run, size)
  {
    ReportedExactly(x, run, size, run[k]);
  }

  // ---- The journal itself ----

  lemma {:induction false} RunLinesSnoc(x: UuidText, run: seq<Entry>, e: Entry)
    ensures RunLines(x, run + [e]) == RunLines(x, run) + [ToLine(x, e)]
  {
    if run != [] {
      RunLinesSnoc(x, run[1..], e);
      assert (run + [e])[1..] == run[1..] + [e];
    }
  }

  lemma RunLinesNext(x: UuidText, run: seq<Entry>, k: nat)
    requires k < |run|
    ensures RunLines(x, run[..k + 1]) == RunLines(x, run[..k]) + [ToLine(x, run[k])]
  {
    var front, e := run[..k], run[k];
    assert run[..k + 1] == front + [e];
    RunLinesSnoc(x, front, e);
  }

  class RequestJournal {
    const buffer: CrashBuffer
    const x: UuidText

    constructor Open(file: string, size: nat, x: UuidText)
      requires size < Pow256(8)
      ensures buffer.Valid() && fresh(buffer) && fresh(buffer.mmap) && this.x == x
      ensures buffer.mmap.Length == if size < MIN_SIZE then MIN_SIZE else size
      ensures buffer.mmap[..] == Resized(file, buffer.mmap.Length)
    {
      buffer := new CrashBuffer.Open(file, size);
      this.x := x;
    }

    method WriteEntry(e: Entry)
      requires buffer.Valid()
      modifies buffer.mmap
      ensures buffer.Window() == Last(buffer.RingSize(), old(buffer.Window()) + ToLine(x, e) + "\n")
    {
      buffer.WriteLine(ToLine(x, e));
    }

    /** Entry after entry. */
    method WriteAll(run: seq<Entry>)
      requires buffer.Valid()
      modifies buffer.mmap
      ensures buffer.Window() == WindowAfter(old(buffer.Window()), RunLines(x, run))
    {
      ghost var before := buffer.Window();
      for k := 0 to |run|
        invariant buffer.Window() == WindowAfter(before, RunLines(x, run[..k]))
      {
        ghost var lines, line := RunLines(x, run[..k]), ToLine(x, run[k]);
        RunLinesNext(x, run, k);
        WindowAfterSnoc(before, lines, line);
        WriteEntry(run[k]);
      }
      assert run[..|run|] == run;
    }

    /** The process dies after w bytes of the record have reached the ring. */
    method DieDuringWriteEntry(e: Entry, w: nat)
      requires buffer.Valid() && w <= |ToLine(x, e)| + 1
      modifies buffer.mmap
      ensures buffer.Window() == Torn(old(buffer.Window()), ToLine(x, e), w)
    {
      buffer.DieDuringWrite(ToLine(x, e), w);
    }

    method ReadIncomplete() returns (result: seq<Entry>)
      requires buffer.Valid()
      ensures result == Incomplete(ParseText(x, TrimNul(buffer.Window())))
    {
      var contents := buffer.ReadContents();
      var lines := Lines(contents);
      var allEntries: seq<Entry> := [];
      var completedIds: set<Uuid> := {};
      for i := 0 to |lines|
        invariant allEntries == ParseLines(x, lines[..i])
        invariant completedIds == CompletedIds(allEntries)
      {
        ParseLinesAppend(x, lines[..i], lines[i]);
        assert lines[..i + 1] == lines[..i] + [lines[i]];
        match FromLine(x, lines[i]) {
          case None =>
            assert allEntries + [] == allEntries;
          case Some(entry) =>
            CompletedIdsSnoc(allEntries, entry);
            if entry.completed {
              completedIds := completedIds + {entry.id};
            }
            allEntries := allEntries + [entry];
        }
      }
      assert lines[..|lines|] == lines;
      result := Keep(allEntries, completedIds);
    }
  }

  /** What the next process reads from the file. */
  method Recover(x: UuidText, file: string) returns (result: seq<Entry>)
    requires MIN_SIZE <= |file| < Pow256(8)
    ensures result == Incomplete(ParseText(x, TrimNul(WindowOf(file))))
  {
    var journal := new RequestJournal.Open(file, |file|, x);
    OpenedReads(file, |file|);
    journal.buffer.WindowIsOfFile();
    result := journal.ReadIncomplete();
  }

  method WriteAndReread(x: UuidText, run: seq<Entry>, size: nat) returns (result: seq<Entry>)
    requires MIN_SIZE <= size < Pow256(8)
    ensures result == Reported(x, run, size - HEADER_SIZE)
  {
    var journal := new RequestJournal.Open("", size, x);
    OpenedReads("", size);
    journal.buffer.WindowIsOfFile();
    journal.WriteAll(run);
    journal.buffer.WindowIsOfFile();
    result := Recover(x, journal.buffer.mmap[..]);
  }

  /** A process writes a run to a new journal and dies; the next one maps the file and reads it. */
  method WriteAndRecover(x: UuidText, run: seq<Entry>, size: nat) returns (result: seq<Entry>)
    requires MIN_SIZE <= size < Pow256(8)
    ensures result == Reported(x, run, size - HEADER_SIZE)
    ensures ValidRun(x, run) ==> ListsPending(x, run, size - HEADER_SIZE, result)
  {
    result := WriteAndReread(x, run, size);
    if ValidRun(x, run) {
      ReportedInOrder(x, run, size - HEADER_SIZE);
    }
  }
}
