/** What the journal reads after a process died inside a write (crash_buffer.rs).

    The offset in the header is written last, so after a crash the torn bytes are read in front of
    whatever they have not yet overwritten. */
module JournalCrash {
  import opened Text
  import opened CrashBuffer
  import opened Journal
  import opened RequestIds

  // ---- What is left of a run ----

  /** What is left of the line cut by keeping the last n bytes of a run, its line break included;
      nothing when no line is cut. */
  function Remnant(x: UuidText, run: seq<Entry>, n: nat): string {
    if |Stream(x, run)| <= n then ""
    else
      var tail := |Stream(x, run[1..])|;
      if tail < n then Last(n - tail, ToLine(x, run[0]) + "\n") else Remnant(x, run[1..], n)
  }

  /** A line without at least its first byte, and its line break. */
  ghost predicate Cuts(line: string, remnant: string) {
    exists j :: 0 < j <= |line| && remnant == line[j..] + "\n"
  }

  lemma LastOfLine(n: nat, line: string)
    requires 0 < n <= |line|
    ensures Cuts(line, Last(n, line + "\n"))
  {
    var j := |line| + 1 - n;
    assert Last(n, line + "\n") == line[j..] + "\n";
  }

  ghost predicate CutAt(x: UuidText, run: seq<Entry>, n: nat, k: nat, remnant: string) {
    && 0 < k <= |run|
    && Last(n, Stream(x, run)) == remnant + Stream(x, run[k..])
    && (remnant == "" || Cuts(ToLine(x, run[k - 1]), remnant))
  }

  lemma SplitLast(n: nat, line: string, tail: string)
    requires |tail| < n <= |line| + |tail|
    ensures Last(n, line + ['\n'] + tail) == Last(n - |tail|, line + "\n") + tail
  {
  }

  lemma CutFirst(x: UuidText, run: seq<Entry>, n: nat, line: string, tail: string)
    requires run != [] && line == ToLine(x, run[0]) && tail == Stream(x, run[1..])
    requires |tail| <= n <= |line| + |tail|
    ensures CutAt(x, run, n, 1, if |tail| < n then Last(n - |tail|, line + "\n") else "")
  {
    if |tail| < n {
      SplitLast(n, line, tail);
      LastOfLine(n - |tail|, line);
    } else {
      LastOfSuffix(n, line + ['\n'], tail);
      assert "" + tail == tail;
    }
  }

  lemma CutLater(x: UuidText, run: seq<Entry>, n: nat, k: nat, remnant: string)
    requires run != [] && CutAt(x, run[1..], n, k, remnant)
    requires Last(n, Stream(x, run)) == Last(n, Stream(x, run[1..]))
    ensures CutAt(x, run, n, k + 1, remnant)
  {
    assert run[1..][k..] == run[k + 1..] && run[1..][k - 1] == run[k];
  }

  lemma LaterLines(x: UuidText, run: seq<Entry>, n: nat, first: string, tail: string)
    requires run != [] && first == ToLine(x, run[0]) + ['\n'] && tail == Stream(x, run[1..]) && |tail| >= n
    ensures Last(n, Stream(x, run)) == Last(n, tail)
  {
    StreamFirst(x, run, first);
    LastOfSuffix(n, first, tail);
  }

  /** The last n bytes of a longer run: what is left of the cut line, and the lines after it. */
  lemma {:induction false} CutSplits(x: UuidText, run: seq<Entry>, n: nat)
    requires |Stream(x, run)| > n
    ensures CutAt(x, run, n, Cut(x, run, n), Remnant(x, run, n))
  {
    var line, tail := ToLine(x, run[0]), Stream(x, run[1..]);
    if |tail| <= n {
      CutFirst(x, run, n, line, tail);
    } else {
      LaterLines(x, run, n, line + ['\n'], tail);
      CutSplits(x, run[1..], n);
      CutLater(x, run, n, Cut(x, run[1..], n), Remnant(x, run[1..], n));
    }
  }

  /** Zero bytes between the torn bytes and the oldest line, while the ring has not wrapped. */
  function Gap(x: UuidText, run: seq<Entry>, n: nat): nat {
    if |Stream(x, run)| <= n then n - |Stream(x, run)| else 0
  }

  lemma LastOfWindow(size: nat, w: nat, s: string)
    requires w <= size <= |s|
    ensures Last(size, s)[w..] == Last(size - w, s)
  {
  }

  lemma LastOfPadded(size: nat, n: nat, s: string)
    requires n <= size
    ensures Last(n, Zeros(size) + s) == if |s| <= n then Zeros(n - |s|) + s else Last(n, s)
  {
    if |s| >= n {
      LastOfSuffix(n, Zeros(size), s);
    }
  }

  lemma WindowIsPadded(x: UuidText, run: seq<Entry>, size: nat)
    ensures JournalWindow(x, run, size) == Last(size, Zeros(size) + Stream(x, run))
  {
    RunRefinesHistory(Zeros(size), RunLines(x, run));
    StreamIsJoined(x, run);
  }

  lemma NothingBetween(a: string, c: string)
    ensures a + "" + c == a + c
  {
  }

  lemma NoZeros(a: string)
    ensures Zeros(0) + a == a
  {
  }

  /** What follows the torn bytes: zeros, the remnant of a cut line, and whole lines. */
  function Rest(x: UuidText, run: seq<Entry>, n: nat): string {
    Zeros(Gap(x, run, n)) + Remnant(x, run, n) + Stream(x, run[Cut(x, run, n)..])
  }

  lemma PaddedIsRest(x: UuidText, run: seq<Entry>, size: nat, n: nat)
    requires n <= size
    ensures Last(n, Zeros(size) + Stream(x, run)) == Rest(x, run, n)
  {
    var s := Stream(x, run);
    LastOfPadded(size, n, s);
    if |s| <= n {
      assert run[0..] == run;
      NothingBetween(Zeros(n - |s|), s);
    } else {
      CutSplits(x, run, n);
      NoZeros(Remnant(x, run, n));
    }
  }

  lemma OverwrittenFront(size: nat, s: string, data: string, rest: string)
    requires 0 < size <= |s| && |data| <= size && rest == Last(size - |data|, s)
    ensures Overwritten(Last(size, s), data) == data + rest
  {
    LastOfWindow(size, |data|, s);
  }

  lemma TornWindow(x: UuidText, run: seq<Entry>, line: string, size: nat, w: nat)
    requires 0 < size && w <= size && w <= |line| + 1
    ensures Torn(JournalWindow(x, run, size), line, w) == (line + "\n")[..w] + Rest(x, run, size - w)
  {
    WindowIsPadded(x, run, size);
    PaddedIsRest(x, run, size, size - w);
    OverwrittenFront(size, Zeros(size) + Stream(x, run), (line + "\n")[..w], Rest(x, run, size - w));
  }

  // ---- Reading torn bytes and what follows them ----

  lemma CountHeader(s: string)
    requires |s| >= 2 && s[1] == '|'
    ensures Count(s, '|') >= 1
  {
    assert s[1..][0] == '|';
  }

  lemma GluedHasTooManyFields(x: UuidText, head: string, whole: string)
    requires |head| >= 2 && head[1] == '|' && Count(whole, '|') == 4
    ensures FromLine(x, head + whole) == None
  {
    CountConcat(head, whole, '|');
    CountHeader(head);
  }

  lemma WrongFirstField(x: UuidText, first: string, rest: string)
    requires '|' !in first && first != "J"
    ensures FromLine(x, first + (['|'] + rest)) == None
  {
    SplitField(first, '|', rest);
  }

  /** An intact line with anything but bars in front of it is spoiled. */
  lemma PrefixedLineNeverParses(x: UuidText, prefix: string, whole: string)
    requires prefix != "" && '|' !in prefix && |whole| >= 2 && whole[..2] == "J|"
    ensures FromLine(x, prefix + whole) == None
  {
    assert whole[0] == 'J' && whole[1] == '|';
    assert prefix + whole == (prefix + "J") + (['|'] + whole[2..]);
    WrongFirstField(x, prefix + "J", whole[2..]);
  }

  /** Torn bytes that run into an intact line spoil it: too many fields, or a wrong first one. */
  lemma GluedLineNeverParses(x: UuidText, torn: string, gap: nat, whole: string)
    requires torn == "J" || (|torn| >= 2 && torn[0] == 'J' && torn[1] == '|')
    requires |whole| >= 2 && whole[..2] == "J|" && Count(whole, '|') == 4
    ensures FromLine(x, torn + Zeros(gap) + whole) == None
  {
    if |torn| >= 2 {
      GluedHasTooManyFields(x, torn + Zeros(gap), whole);
    } else {
      PrefixedLineNeverParses(x, torn + Zeros(gap), whole);
    }
  }

  lemma TornHead(line: string, w: nat)
    requires |line| >= 2 && line[..2] == "J|" && OneLine(line) && 0 < w <= |line|
    ensures var torn := line[..w];
            (torn == "J" || (|torn| >= 2 && torn[0] == 'J' && torn[1] == '|')) && OneLine(torn)
  {
    assert line[0] == "J|"[0] && line[1] == "J|"[1];
  }

  /** A text that starts with some line, NUL-free at both ends. */
  lemma TextFromLine(x: UuidText, first: string, tail: string)
    requires '\n' !in first && '\r' !in first && first != [] && first[0] != '\0'
    requires tail == [] || tail[|tail| - 1] != '\0'
    ensures ParseText(x, TrimNul(first + ['\n'] + tail)) == Read(x, first) + ParseText(x, tail)
  {
    TrimKeeps(first + ['\n'] + tail);
    ParseFirstLine(x, first, tail);
  }

  /** Anything on one line in front of intact lines: only the first of those lines is touched. */
  lemma HeadBeforeLine(x: UuidText, head: string, line: string, tail: string, s: string)
    requires '\n' !in head && '\r' !in head && OneLine(line) && s == line + ['\n'] + tail
    ensures ParseText(x, head + s) == Read(x, head + line) + ParseText(x, tail)
  {
    assert head + s == (head + line) + ['\n'] + tail;
    ParseFirstLine(x, head + line, tail);
  }

  lemma HeadIsTrimmed(x: UuidText, head: string, s: string)
    requires head != [] && head[0] != '\0' && s != [] && s[|s| - 1] != '\0'
    ensures TrimNul(head + s) == head + s
  {
    TrimKeeps(head + s);
  }

  lemma {:induction false} StreamEnds(x: UuidText, run: seq<Entry>)
    ensures var s := Stream(x, run); s != [] ==> s[0] == 'J' && s[|s| - 1] == '\n'
  {
    if |run| > 1 {
      StreamEnds(x, run[1..]);
    }
  }

  lemma {:induction false} TrimRightZeros(s: string, g: nat)
    requires s != [] && s[|s| - 1] != '\0'
    ensures TrimRight(s + Zeros(g)) == s
  {
    if g == 0 {
      assert s + Zeros(0) == s;
    } else {
      var t := s + Zeros(g);
      assert t[..|t| - 1] == s + Zeros(g - 1);
      TrimRightZeros(s, g - 1);
    }
  }

  lemma TrimTail(s: string, g: nat)
    requires s != [] && s[0] != '\0' && s[|s| - 1] != '\0'
    ensures TrimNul(s + Zeros(g)) == s
  {
    TrimRightZeros(s, g);
  }

  lemma {:induction false} UnendedLine(pending: string, s: string)
    requires '\n' !in s && pending + s != []
    ensures LinesFrom(s, pending) == [pending + s]
    decreases s
  {
    if s == [] {
      assert pending + s == pending;
    } else {
      UnendedLine(pending + [s[0]], s[1..]);
      assert pending + [s[0]] + s[1..] == pending + s;
    }
  }

  lemma ParseUnendedLine(x: UuidText, s: string)
    requires '\n' !in s && s != []
    ensures ParseText(x, s) == Read(x, s)
  {
    UnendedLine([], s);
    assert [] + s == s;
    assert Lines(s) == [s];
    assert ParseLines(x, [s][1..]) == [];
  }

  // ---- The five ways a torn write reads ----

  lemma CutLineIsOneLine(line: string, j: nat)
    requires OneLine(line) && j <= |line|
    ensures OneLine(line[j..])
  {
  }

  /** The torn bytes run into what is left of a cut line. */
  lemma TornIntoRemnant(x: UuidText, torn: string, line: string, remnant: string, rest: seq<Entry>)
    requires ValidRun(x, rest) && OneLine(torn) && torn != "" && OneLine(line) && Cuts(line, remnant)
    ensures ParseText(x, TrimNul(torn + (remnant + Stream(x, rest)))) == Read(x, torn + remnant[..|remnant| - 1]) + rest
  {
    var j :| 0 < j <= |line| && remnant == line[j..] + "\n";
    var cut, tail := line[j..], Stream(x, rest);
    CutLineIsOneLine(line, j);
    StreamEnds(x, rest);
    var s := remnant + tail;
    assert s == cut + ['\n'] + tail && remnant[..|remnant| - 1] == cut;
    HeadIsTrimmed(x, torn, s);
    HeadBeforeLine(x, torn, cut, tail, s);
    StreamParses(x, rest);
  }

  /** A whole new line in front of what is left of a cut one. */
  lemma WholeBeforeRemnant(x: UuidText, line: string, oldest: Entry, remnant: string, rest: seq<Entry>)
    requires ValidRun(x, rest) && OneLine(line) && line != "" && Cuts(ToLine(x, oldest), remnant)
    ensures ParseText(x, TrimNul(line + "\n" + (remnant + Stream(x, rest)))) == Read(x, line) + rest
  {
    var l := ToLine(x, oldest);
    var j :| 0 < j <= |l| && remnant == l[j..] + "\n";
    var tail := l[j..] + ['\n'] + Stream(x, rest);
    StreamEnds(x, rest);
    assert remnant + Stream(x, rest) == tail;
    TextFromLine(x, line, tail);
    CutWindowParses(x, oldest, j, Stream(x, rest));
    StreamParses(x, rest);
  }

  /** Nothing whole is left behind the torn bytes. */
  lemma TornAlone(x: UuidText, line: string, w: nat, gap: nat)
    requires OneLine(line) && line != "" && 0 < w <= |line| + 1
    ensures ParseText(x, TrimNul((line + "\n")[..w] + Zeros(gap))) == Read(x, if w <= |line| then line[..w] else line)
  {
    var torn := (line + "\n")[..w];
    TrimTail(torn, gap);
    if w <= |line| {
      assert torn == line[..w];
      ParseUnendedLine(x, torn);
    } else {
      assert torn == line + ['\n'] + "";
      TextFromLine(x, line, "");
      TrimTail(torn, 0);
      assert torn + Zeros(0) == torn;
    }
  }

  lemma TornZerosAreOneLine(line: string, w: nat, gap: nat)
    requires OneLine(line) && w <= |line|
    ensures '\n' !in line[..w] + Zeros(gap) && '\r' !in line[..w] + Zeros(gap)
  {
  }

  /** Lines behind something that spoils the first of them. */
  lemma FirstLineSpoiled(x: UuidText, head: string, rest: seq<Entry>)
    requires ValidRun(x, rest) && rest != [] && '\n' !in head && '\r' !in head
    requires FromLine(x, head + ToLine(x, rest[0])) == None
    ensures ParseText(x, head + Stream(x, rest)) == rest[1..]
  {
    LineShape(x, rest[0]);
    HeadBeforeLine(x, head, ToLine(x, rest[0]), Stream(x, rest[1..]), Stream(x, rest));
    StreamParses(x, rest[1..]);
  }

  lemma SpoiledText(x: UuidText, head: string, rest: seq<Entry>)
    requires ValidRun(x, rest) && rest != [] && '\n' !in head && '\r' !in head
    requires head != [] && head[0] != '\0' && FromLine(x, head + ToLine(x, rest[0])) == None
    ensures ParseText(x, TrimNul(head + Stream(x, rest))) == rest[1..]
  {
    StreamEnds(x, rest);
    assert Stream(x, rest) != [];
    HeadIsTrimmed(x, head, Stream(x, rest));
    FirstLineSpoiled(x, head, rest);
  }

  lemma TornSpoils(x: UuidText, line: string, w: nat, gap: nat, e: Entry)
    requires x.Lawful() && |line| >= 2 && line[..2] == "J|" && OneLine(line) && 0 < w <= |line|
    ensures FromLine(x, line[..w] + Zeros(gap) + ToLine(x, e)) == None
  {
    LineShape(x, e);
    TornHead(line, w);
    GluedLineNeverParses(x, line[..w], gap, ToLine(x, e));
  }

  /** The torn bytes run into an intact line, with zeros between them or not. */
  lemma TornIntoLine(x: UuidText, line: string, w: nat, gap: nat, rest: seq<Entry>)
    requires ValidRun(x, rest) && rest != []
    requires |line| >= 2 && line[..2] == "J|" && OneLine(line) && 0 < w <= |line|
    ensures ParseText(x, TrimNul(line[..w] + (Zeros(gap) + Stream(x, rest)))) == rest[1..]
  {
    var head := line[..w] + Zeros(gap);
    TornSpoils(x, line, w, gap, rest[0]);
    TornZerosAreOneLine(line, w, gap);
    assert head[0] == line[0] && line[0] in line;
    SpoiledText(x, head, rest);
    ConcatAssoc(line[..w], Zeros(gap), Stream(x, rest));
  }

  lemma ZerosSpoilLine(x: UuidText, gap: nat, rest: seq<Entry>)
    requires ValidRun(x, rest) && rest != [] && gap > 0
    ensures ParseText(x, Zeros(gap) + Stream(x, rest)) == rest[1..]
  {
    LineShape(x, rest[0]);
    PrefixedLineNeverParses(x, Zeros(gap), ToLine(x, rest[0]));
    FirstLineSpoiled(x, Zeros(gap), rest);
  }

  /** A whole new line, then zeros that spoil the oldest line, or no zeros and nothing spoiled. */
  lemma WholeBeforeLine(x: UuidText, line: string, gap: nat, rest: seq<Entry>)
    requires ValidRun(x, rest) && rest != [] && OneLine(line) && line != ""
    ensures ParseText(x, TrimNul(line + "\n" + (Zeros(gap) + Stream(x, rest))))
            == Read(x, line) + if gap > 0 then rest[1..] else rest
  {
    var tail := Zeros(gap) + Stream(x, rest);
    StreamEnds(x, rest);
    assert line + "\n" + tail == line + ['\n'] + tail;
    assert tail[|tail| - 1] == Stream(x, rest)[|Stream(x, rest)| - 1];
    TextFromLine(x, line, tail);
    if gap > 0 {
      ZerosSpoilLine(x, gap, rest);
    } else {
      assert tail == Stream(x, rest);
      StreamParses(x, rest);
    }
  }

  lemma LastByte(x: UuidText, e: Entry)
    ensures var line := ToLine(x, e);
            && |line| > 2 && line[|line| - 1] == Flag(e)[0] && line[|line| - 2] == '|'
            && line[..|line| - 1] == "J|" + Fields(x, e, "")
            && line[..|line| - 1] + "1" == "J|" + Fields(x, e, "1")
  {
  }

  lemma TakeDrop(line: string, w: nat)
    requires w <= |line|
    ensures line == line[..w] + line[w..]
  {
  }

  lemma ShortPrefixNeverParses(x: UuidText, line: string, w: nat)
    requires |line| > 2 && line[|line| - 2] == '|' && Count(line, '|') == 4 && w < |line| - 1
    ensures FromLine(x, line[..w]) == None
  {
    var rest := line[w..];
    CountConcat(line[..w], rest, '|');
    TakeDrop(line, w);
    CountConcat(rest[..|rest| - 2], rest[|rest| - 2..], '|');
    assert rest == rest[..|rest| - 2] + rest[|rest| - 2..];
    assert rest[|rest| - 2..][0] == '|';
  }

  lemma FlaglessReads(x: UuidText, e: Entry, line: string)
    requires x.Lawful() && e.Valid() && line == "J|" + Fields(x, e, "")
    ensures Read(x, line) == [e.(completed := false)]
  {
    ParseOfFields(x, e, "");
  }

  lemma PrefixReads(x: UuidText, e: Entry, line: string, w: nat)
    requires x.Lawful() && e.Valid() && line == ToLine(x, e) && 0 < w <= |line|
    ensures Read(x, line[..w])
            == if w < |line| - 1 then [] else if w == |line| - 1 then [e.(completed := false)] else [e]
  {
    LastByte(x, e);
    if w == |line| {
      assert line[..w] == line;
      EntryRoundTrip(x, e);
    } else if w == |line| - 1 {
      FlaglessReads(x, e, line[..w]);
    } else {
      LineShape(x, e);
      ShortPrefixNeverParses(x, line, w);
    }
  }

  /** The records read when torn bytes of e's line stand in front of zeros, a remnant and whole lines. */
  function ReadsAfter(x: UuidText, e: Entry, w: nat, gap: nat, remnant: string, rest: seq<Entry>): seq<Entry>
    requires w <= |ToLine(x, e)| + 1
  {
    var line := ToLine(x, e);
    if remnant != "" then (if w <= |line| then Read(x, line[..w] + remnant[..|remnant| - 1]) else [e]) + rest
    else if rest == [] then
      if w < |line| - 1 then [] else if w == |line| - 1 then [e.(completed := false)] else [e]
    else if w <= |line| then rest[1..]
    else [e] + if gap > 0 then rest[1..] else rest
  }

  /** The records that are read after a process died with w bytes of e's line in the ring. */
  function AfterTear(x: UuidText, run: seq<Entry>, e: Entry, size: nat, w: nat): seq<Entry>
    requires w <= size && w <= |ToLine(x, e)| + 1
  {
    var n := size - w;
    var rest := run[Cut(x, run, n)..];
    if w == 0 then rest else ReadsAfter(x, e, w, Gap(x, run, n), Remnant(x, run, n), rest)
  }

  lemma PrefixIsOneLine(line: string, w: nat)
    requires OneLine(line) && w <= |line|
    ensures OneLine(line[..w])
  {
  }

  lemma TornBeforeRemnant(x: UuidText, line: string, w: nat, torn: string, oldest: Entry, remnant: string,
                          rest: seq<Entry>)
    requires ValidRun(x, rest) && OneLine(line) && line != "" && 0 < w <= |line| + 1
    requires Cuts(ToLine(x, oldest), remnant) && torn == (line + "\n")[..w]
    ensures ParseText(x, TrimNul(torn + (remnant + Stream(x, rest))))
            == Read(x, if w <= |line| then line[..w] + remnant[..|remnant| - 1] else line) + rest
  {
    if w <= |line| {
      assert torn == line[..w];
      LineShape(x, oldest);
      PrefixIsOneLine(line, w);
      TornIntoRemnant(x, torn, ToLine(x, oldest), remnant, rest);
    } else {
      assert torn == line + "\n";
      WholeBeforeRemnant(x, line, oldest, remnant, rest);
    }
  }

  lemma TornBeforeRest(x: UuidText, e: Entry, w: nat, torn: string, gap: nat, rest: seq<Entry>)
    requires ValidRun(x, rest) && e.Valid() && 0 < w <= |ToLine(x, e)| + 1 && torn == (ToLine(x, e) + "\n")[..w]
    ensures var line := ToLine(x, e);
            ParseText(x, TrimNul(torn + (Zeros(gap) + Stream(x, rest))))
            == if rest == [] then Read(x, if w <= |line| then line[..w] else line)
               else if w <= |line| then rest[1..]
               else [e] + if gap > 0 then rest[1..] else rest
  {
    var line := ToLine(x, e);
    LineShape(x, e);
    EntryRoundTrip(x, e);
    if rest == [] {
      TornAlone(x, line, w, gap);
      assert Zeros(gap) + Stream(x, rest) == Zeros(gap);
    } else if w <= |line| {
      assert torn == line[..w];
      TornIntoLine(x, line, w, gap, rest);
    } else {
      assert torn == line + "\n";
      WholeBeforeLine(x, line, gap, rest);
    }
  }

  lemma RestIsValid(x: UuidText, run: seq<Entry>, n: nat)
    requires ValidRun(x, run)
    ensures ValidRun(x, run[Cut(x, run, n)..])
  {
  }

  lemma RemnantIsCut(x: UuidText, run: seq<Entry>, n: nat, any: Entry) returns (oldest: Entry)
    ensures Remnant(x, run, n) != "" ==> Gap(x, run, n) == 0 && Cuts(ToLine(x, oldest), Remnant(x, run, n))
  {
    oldest := any;
    if |Stream(x, run)| > n {
      CutSplits(x, run, n);
      oldest := run[Cut(x, run, n) - 1];
    }
  }

  lemma NoGap(gap: nat, remnant: string, s: string)
    ensures gap == 0 ==> Zeros(gap) + remnant + s == remnant + s
    ensures remnant == "" ==> Zeros(gap) + remnant + s == Zeros(gap) + s
  {
    NoZeros(remnant);
    NothingBetween(Zeros(gap), s);
  }

  lemma PartsRead(x: UuidText, e: Entry, w: nat, torn: string, oldest: Entry, gap: nat, remnant: string,
                  rest: seq<Entry>)
    requires ValidRun(x, rest) && e.Valid() && 0 < w <= |ToLine(x, e)| + 1 && torn == (ToLine(x, e) + "\n")[..w]
    requires remnant != "" ==> gap == 0 && Cuts(ToLine(x, oldest), remnant)
    ensures ParseText(x, TrimNul(torn + (Zeros(gap) + remnant + Stream(x, rest))))
            == ReadsAfter(x, e, w, gap, remnant, rest)
  {
    LineShape(x, e);
    EntryRoundTrip(x, e);
    NoGap(gap, remnant, Stream(x, rest));
    if remnant != "" {
      TornBeforeRemnant(x, ToLine(x, e), w, torn, oldest, remnant, rest);
    } else {
      TornBeforeRest(x, e, w, torn, gap, rest);
      if w <= |ToLine(x, e)| {
        PrefixReads(x, e, ToLine(x, e), w);
      }
    }
  }

  lemma TornTextReads(x: UuidText, run: seq<Entry>, e: Entry, n: nat, w: nat, torn: string)
    requires ValidRun(x, run) && e.Valid() && 0 < w <= |ToLine(x, e)| + 1 && torn == (ToLine(x, e) + "\n")[..w]
    ensures ParseText(x, TrimNul(torn + Rest(x, run, n)))
            == ReadsAfter(x, e, w, Gap(x, run, n), Remnant(x, run, n), run[Cut(x, run, n)..])
  {
    RestIsValid(x, run, n);
    var oldest := RemnantIsCut(x, run, n, e);
    PartsRead(x, e, w, torn, oldest, Gap(x, run, n), Remnant(x, run, n), run[Cut(x, run, n)..]);
  }

  /** What the journal reads after a process died inside a write, for every run, ring and crash point that
      stores at most one ring of bytes. */
  lemma TearReads(x: UuidText, run: seq<Entry>, e: Entry, size: nat, w: nat, window: string)
    requires ValidRun(x, run) && e.Valid() && 0 < size && w <= size && w <= |ToLine(x, e)| + 1
    requires window == Torn(JournalWindow(x, run, size), ToLine(x, e), w)
    ensures ParseText(x, TrimNul(window)) == AfterTear(x, run, e, size, w)
  {
    if w == 0 {
      assert window == JournalWindow(x, run, size);
      JournalReadsBack(x, run, size);
    } else {
      TornWindow(x, run, ToLine(x, e), size, w);
      TornTextReads(x, run, e, size - w, w, (ToLine(x, e) + "\n")[..w]);
    }
  }

  /** A write torn after a whole ring of bytes leaves nothing of the run. */
  lemma LongTearErasesRun(x: UuidText, run: seq<Entry>, other: seq<Entry>, line: string, size: nat, w: nat)
    requires 0 < size <= w <= |line| + 1
    ensures Torn(JournalWindow(x, run, size), line, w) == Torn(JournalWindow(x, other, size), line, w)
  {
    FullRoundErasesAll(JournalWindow(x, run, size), JournalWindow(x, other, size), (line + "\n")[..w]);
  }

  // ---- What torn bytes and the remnant of a line read as ----

  lemma SplicedCrosswise(p: seq<string>, s: seq<string>, q: seq<string>, t: seq<string>)
    requires p != [] && s != [] && q != [] && t != []
    requires |Spliced(p, s)| == |Spliced(q, t)| == |Spliced(p, t)|
    ensures |p| == |q|
    ensures forall i | 0 <= i < |p| - 1 :: Spliced(p, t)[i] == Spliced(p, s)[i]
    ensures forall i | |p| <= i < |Spliced(p, t)| :: Spliced(p, t)[i] == Spliced(q, t)[i]
  {
  }

  lemma GluedFields(line: string, w: nat, other: string, j: nat, f: seq<string>, g: seq<string>, r: seq<string>)
    requires w <= |line| && j <= |other| && |f| == |g| == |r| == 5
    requires f == Split(line, '|') && g == Split(other, '|') && r == Split(line[..w] + other[j..], '|')
    ensures var k := Count(line[..w], '|');
            && k == Count(other[..j], '|') < 5
            && (forall i | 0 <= i < k :: r[i] == f[i])
            && (forall i | k < i < 5 :: r[i] == g[i])
  {
    TakeDrop(line, w);
    TakeDrop(other, j);
    SplitConcat(line[..w], line[w..], '|');
    SplitConcat(other[..j], other[j..], '|');
    SplitConcat(line[..w], other[j..], '|');
    SplicedCrosswise(Split(line[..w], '|'), Split(line[w..], '|'), Split(other[..j], '|'), Split(other[j..], '|'));
  }

  /** The fields of a record's line, as the reader decodes them. */
  lemma FieldsOfLine(x: UuidText, e: Entry)
    requires x.Lawful()
    ensures Split(ToLine(x, e), '|')
            == ["J", x.print_(e.id), Decimal.PrintInt(e.timestamp), Decimal.PrintInt(e.mappingCount), Flag(e)]
  {
    SplitLine(x, e, Flag(e));
  }

  lemma FieldsDecode(x: UuidText, e: Entry, fields: seq<string>)
    requires x.Lawful() && e.Valid() && fields == Split(ToLine(x, e), '|')
    ensures |fields| == 5 && fields[0] == "J" && x.parse(fields[1]) == Some(e.id)
    ensures Decimal.ParseInt(fields[2], true, -I64_LIMIT, I64_LIMIT) == Some(e.timestamp)
    ensures Decimal.ParseInt(fields[3], false, 0, U32_LIMIT) == Some(e.mappingCount)
    ensures e.completed == (fields[4] == "1")
  {
    FieldsOfLine(x, e);
    Decimal.ParseIntOfPrint(e.timestamp, true, -I64_LIMIT, I64_LIMIT);
    Decimal.ParseIntOfPrint(e.mappingCount, false, 0, U32_LIMIT);
  }

  /** A record with the fields of e before field k and those of other after it, if field k reads as one. */
  function Mixed(x: UuidText, e: Entry, other: Entry, k: nat, field: string): Option<Entry> {
    if k == 0 then
      if field == "J" then Some(other) else None
    else if k == 1 then
      match x.parse(field)
      case None => None
      case Some(id) => Some(other.(id := id))
    else if k == 2 then
      match Decimal.ParseInt(field, true, -I64_LIMIT, I64_LIMIT)
      case None => None
      case Some(timestamp) => Some(Entry(e.id, timestamp, other.mappingCount, other.completed))
    else if k == 3 then
      match Decimal.ParseInt(field, false, 0, U32_LIMIT)
      case None => None
      case Some(count) => Some(Entry(e.id, e.timestamp, count, other.completed))
    else
      Some(e.(completed := field == "1"))
  }

  lemma MixedReads(x: UuidText, e: Entry, other: Entry, k: nat, f: seq<string>, g: seq<string>, r: seq<string>)
    requires x.Lawful() && e.Valid() && other.Valid() && k < 5 && |r| == 5
    requires f == Split(ToLine(x, e), '|') && g == Split(ToLine(x, other), '|') && |f| == |g| == 5
    requires (forall i | 0 <= i < k :: r[i] == f[i]) && forall i | k < i < 5 :: r[i] == g[i]
    ensures FromParts(x, r) == Mixed(x, e, other, k, r[k])
  {
    FieldsDecode(x, e, f);
    FieldsDecode(x, other, g);
  }

  /** The field in which a text ending here and one starting here meet. */
  function Meeting(head: string, tail: string): string {
    var f := Split(head, '|');
    f[|f| - 1] + Split(tail, '|')[0]
  }

  /** What w bytes of e's line read as in front of other's line without its first j bytes: nothing, unless
      both are torn in the same field; then a record that mixes the fields of both around that one. */
  function Glued(x: UuidText, e: Entry, w: nat, other: Entry, j: nat): Option<Entry>
    requires w <= |ToLine(x, e)| && j <= |ToLine(x, other)|
  {
    var head, lost, tail := ToLine(x, e)[..w], ToLine(x, other)[..j], ToLine(x, other)[j..];
    if Count(head, '|') == Count(lost, '|') then Mixed(x, e, other, Count(head, '|'), Meeting(head, tail)) else None
  }

  lemma GluedCount(head: string, lost: string, tail: string, r: seq<string>)
    requires Count(lost + tail, '|') == 4 && r == Split(head + tail, '|')
    ensures |r| == 5 <==> Count(head, '|') == Count(lost, '|')
    ensures Count(head, '|') < |r| && r[Count(head, '|')] == Meeting(head, tail)
  {
    CountConcat(lost, tail, '|');
    SplitConcat(head, tail, '|');
  }

  /** Exactly when torn bytes glued to what is left of a line read as a record, and as which. */
  lemma GluedMixesFields(x: UuidText, e: Entry, w: nat, other: Entry, j: nat)
    requires x.Lawful() && e.Valid() && other.Valid() && w <= |ToLine(x, e)| && j <= |ToLine(x, other)|
    ensures FromLine(x, ToLine(x, e)[..w] + ToLine(x, other)[j..]) == Glued(x, e, w, other, j)
  {
    var line, whole := ToLine(x, e), ToLine(x, other);
    var f, g, r := Split(line, '|'), Split(whole, '|'), Split(line[..w] + whole[j..], '|');
    FieldsDecode(x, e, f);
    FieldsDecode(x, other, g);
    TakeDrop(whole, j);
    GluedCount(line[..w], whole[..j], whole[j..], r);
    if |r| == 5 {
      GluedFields(line, w, whole, j, f, g, r);
      MixedReads(x, e, other, Count(line[..w], '|'), f, g, r);
    }
  }

  // ---- When a torn write does no harm ----

  /** Every record whose line is intact is read, and nothing is read that was never written. */
  ghost predicate Harmless(run: seq<Entry>, e: Entry, intact: seq<Entry>, result: seq<Entry>) {
    && multiset(intact) <= multiset(result)
    && forall r | r in result :: r in run || r == e
  }

  /** How many bytes the line cut by keeping the last n bytes of a run has lost. */
  function Lost(x: UuidText, run: seq<Entry>, n: nat): (j: nat)
    requires Remnant(x, run, n) != ""
    ensures 0 < Cut(x, run, n) <= |run|
    ensures var line := ToLine(x, run[Cut(x, run, n) - 1]);
            0 < j <= |line| && Remnant(x, run, n) == line[j..] + "\n"
  {
    CutSplits(x, run, n);
    |ToLine(x, run[Cut(x, run, n) - 1])| + 1 - |Remnant(x, run, n)|
  }

  /** In front of the remnant of a cut line: the new line is whole; or the two are not torn in one field,
      or mix to a record that was written. */
  ghost predicate SafeAtRemnant(x: UuidText, run: seq<Entry>, e: Entry, n: nat, w: nat)
    requires Remnant(x, run, n) != "" && w <= |ToLine(x, e)| + 1
  {
    || w == |ToLine(x, e)| + 1
    || (var glued := Glued(x, e, w, run[Cut(x, run, n) - 1], Lost(x, run, n));
        glued == None || glued.value in run || glued.value == e)
  }

  /** In front of whole lines: the new line is whole too and meets the oldest directly, or says the same.
      In front of none: the torn bytes are not a completion record without its last byte. */
  ghost predicate SafeAtLine(x: UuidText, run: seq<Entry>, e: Entry, w: nat, gap: nat, rest: seq<Entry>) {
    var length := |ToLine(x, e)|;
    if rest == [] then !(w == length - 1 && e.completed && e.(completed := false) !in run)
    else w == length + 1 && (gap == 0 || e == rest[0])
  }

  ghost predicate Safe(x: UuidText, run: seq<Entry>, e: Entry, n: nat, w: nat)
    requires w <= |ToLine(x, e)| + 1
  {
    || w == 0
    || if Remnant(x, run, n) != "" then SafeAtRemnant(x, run, e, n, w)
       else SafeAtLine(x, run, e, w, Gap(x, run, n), run[Cut(x, run, n)..])
  }

  lemma DropsFirst(rest: seq<Entry>)
    requires rest != []
    ensures !(multiset(rest) <= multiset(rest[1..]))
    ensures multiset(rest) == multiset(rest[1..]) + multiset{rest[0]}
  {
    assert rest == [rest[0]] + rest[1..];
    var r := rest[0];
    assert multiset(rest)[r] == multiset(rest[1..])[r] + 1;
  }

  lemma KeepsAll(head: seq<Entry>, rest: seq<Entry>)
    ensures multiset(rest) <= multiset(head + rest)
  {
    assert multiset(head + rest) == multiset(head) + multiset(rest);
  }

  lemma ReplacesFirst(e: Entry, rest: seq<Entry>)
    requires rest != []
    ensures multiset(rest) <= multiset([e] + rest[1..]) <==> e == rest[0]
  {
    DropsFirst(rest);
    assert multiset([e] + rest[1..]) == multiset{e} + multiset(rest[1..]);
    if e != rest[0] {
      var r := rest[0];
      assert multiset([e] + rest[1..])[r] == multiset(rest[1..])[r];
    }
  }

  lemma HeadHarmlessIff(run: seq<Entry>, e: Entry, head: seq<Entry>, rest: seq<Entry>)
    requires forall r | r in rest :: r in run
    ensures Harmless(run, e, rest, head + rest) <==> forall r | r in head :: r in run || r == e
  {
    KeepsAll(head, rest);
    if r :| r in head && r !in run && r != e {
      assert r in head + rest;
    }
  }

  lemma LostIsHarm(run: seq<Entry>, e: Entry, rest: seq<Entry>)
    requires rest != []
    ensures !Harmless(run, e, rest, rest[1..])
  {
    DropsFirst(rest);
  }

  lemma ReplacedHarmlessIff(run: seq<Entry>, e: Entry, rest: seq<Entry>)
    requires rest != [] && forall r | r in rest :: r in run
    ensures Harmless(run, e, rest, [e] + rest[1..]) <==> e == rest[0]
  {
    ReplacesFirst(e, rest);
  }

  lemma AloneHarmlessIff(run: seq<Entry>, e: Entry, result: seq<Entry>)
    ensures Harmless(run, e, [], result) <==> forall r | r in result :: r in run || r == e
  {
  }

  lemma RemnantReads(x: UuidText, run: seq<Entry>, e: Entry, n: nat, w: nat)
    requires ValidRun(x, run) && e.Valid() && Remnant(x, run, n) != "" && w <= |ToLine(x, e)|
    ensures var remnant := Remnant(x, run, n);
            FromLine(x, ToLine(x, e)[..w] + remnant[..|remnant| - 1])
            == Glued(x, e, w, run[Cut(x, run, n) - 1], Lost(x, run, n))
  {
    var oldest, j, remnant := run[Cut(x, run, n) - 1], Lost(x, run, n), Remnant(x, run, n);
    assert remnant[..|remnant| - 1] == ToLine(x, oldest)[j..];
    GluedMixesFields(x, e, w, oldest, j);
  }

  lemma OneReadHarmlessIff(x: UuidText, run: seq<Entry>, e: Entry, text: string, r: Option<Entry>, rest: seq<Entry>)
    requires FromLine(x, text) == r && forall b | b in rest :: b in run
    ensures Harmless(run, e, rest, Read(x, text) + rest) <==> r == None || r.value in run || r.value == e
  {
    HeadHarmlessIff(run, e, Read(x, text), rest);
  }

  lemma RemnantHarmlessIff(x: UuidText, run: seq<Entry>, e: Entry, n: nat, w: nat, rest: seq<Entry>)
    requires ValidRun(x, run) && e.Valid() && 0 < w <= |ToLine(x, e)| + 1 && rest == run[Cut(x, run, n)..]
    requires Remnant(x, run, n) != ""
    ensures Harmless(run, e, rest, ReadsAfter(x, e, w, Gap(x, run, n), Remnant(x, run, n), rest))
            <==> SafeAtRemnant(x, run, e, n, w)
  {
    var line, remnant := ToLine(x, e), Remnant(x, run, n);
    if w <= |line| {
      RemnantReads(x, run, e, n, w);
      var glued := Glued(x, e, w, run[Cut(x, run, n) - 1], Lost(x, run, n));
      OneReadHarmlessIff(x, run, e, line[..w] + remnant[..|remnant| - 1], glued, rest);
    } else {
      HeadHarmlessIff(run, e, [e], rest);
    }
  }

  lemma NoRemnantHarmlessIff(x: UuidText, run: seq<Entry>, e: Entry, w: nat, gap: nat, rest: seq<Entry>)
    requires 0 < w <= |ToLine(x, e)| + 1 && forall r | r in rest :: r in run
    ensures Harmless(run, e, rest, ReadsAfter(x, e, w, gap, "", rest))
            <==> SafeAtLine(x, run, e, w, gap, rest)
  {
    if rest == [] {
      AloneHarmlessIff(run, e, ReadsAfter(x, e, w, gap, "", rest));
    } else if w <= |ToLine(x, e)| {
      LostIsHarm(run, e, rest);
    } else if gap > 0 {
      ReplacedHarmlessIff(run, e, rest);
    } else {
      HeadHarmlessIff(run, e, [e], rest);
    }
  }

  lemma ReadsHarmlessIff(x: UuidText, run: seq<Entry>, e: Entry, n: nat, w: nat, rest: seq<Entry>)
    requires ValidRun(x, run) && e.Valid() && 0 < w <= |ToLine(x, e)| + 1 && rest == run[Cut(x, run, n)..]
    ensures Harmless(run, e, rest, ReadsAfter(x, e, w, Gap(x, run, n), Remnant(x, run, n), rest))
            <==> Safe(x, run, e, n, w)
  {
    if Remnant(x, run, n) != "" {
      RemnantHarmlessIff(x, run, e, n, w, rest);
    } else {
      NoRemnantHarmlessIff(x, run, e, w, Gap(x, run, n), rest);
    }
  }

  lemma NothingStoredIsHarmless(run: seq<Entry>, e: Entry, k: nat, intact: seq<Entry>)
    requires k <= |run| && intact == run[k..]
    ensures Harmless(run, e, intact, intact)
  {
  }

  lemma AfterTearHarmlessIff(x: UuidText, run: seq<Entry>, e: Entry, size: nat, w: nat, n: nat, intact: seq<Entry>)
    requires ValidRun(x, run) && e.Valid() && w <= size && w <= |ToLine(x, e)| + 1
    requires n == size - w && intact == run[Cut(x, run, n)..]
    ensures Harmless(run, e, intact, AfterTear(x, run, e, size, w)) <==> Safe(x, run, e, n, w)
  {
    if w == 0 {
      NothingStoredIsHarmless(run, e, Cut(x, run, n), intact);
    } else {
      ReadsHarmlessIff(x, run, e, n, w, intact);
    }
  }

  /** The exact condition under which a process may die inside a write without harm: no intact record is
      lost and none is read that was never written. */
  lemma TearIsHarmlessIff(x: UuidText, run: seq<Entry>, e: Entry, size: nat, w: nat, n: nat, window: string,
                          intact: seq<Entry>)
    requires ValidRun(x, run) && e.Valid() && 0 < size && w <= size && w <= |ToLine(x, e)| + 1
    requires window == Torn(JournalWindow(x, run, size), ToLine(x, e), w)
    requires n == size - w && intact == run[Cut(x, run, n)..]
    ensures Harmless(run, e, intact, ParseText(x, TrimNul(window))) <==> Safe(x, run, e, n, w)
  {
    TearReads(x, run, e, size, w, window);
    AfterTearHarmlessIff(x, run, e, size, w, n, intact);
  }

  /** A process writes a run to a new journal and dies inside one more write. */
  method WriteAndDie(x: UuidText, run: seq<Entry>, e: Entry, size: nat, w: nat) returns (file: string)
    requires MIN_SIZE <= size < Pow256(8) && w <= |ToLine(x, e)| + 1
    ensures |file| == size && WindowOf(file) == Torn(JournalWindow(x, run, size - HEADER_SIZE), ToLine(x, e), w)
  {
    var journal := new RequestJournal.Open("", size, x);
    OpenedReads("", size);
    journal.buffer.WindowIsOfFile();
    journal.WriteAll(run);
    journal.DieDuringWriteEntry(e, w);
    journal.buffer.WindowIsOfFile();
    file := journal.buffer.mmap[..];
  }

  /** What is reported after a process died inside a write. */
  ghost function ReportedAfterTear(x: UuidText, run: seq<Entry>, e: Entry, size: nat, w: nat): seq<Entry>
    requires 0 < size && w <= |ToLine(x, e)| + 1
  {
    Incomplete(ParseText(x, TrimNul(Torn(JournalWindow(x, run, size), ToLine(x, e), w))))
  }

  /** ... and the next process reads the file. */
  method CrashAndRecover(x: UuidText, run: seq<Entry>, e: Entry, size: nat, w: nat) returns (result: seq<Entry>)
    requires MIN_SIZE <= size < Pow256(8) && w <= |ToLine(x, e)| + 1
    ensures result == ReportedAfterTear(x, run, e, size - HEADER_SIZE, w)
  {
    var file := WriteAndDie(x, run, e, size, w);
    result := Recover(x, file);
  }

  // ---- When a completed request is reported after a crash ----

  ghost predicate NoneCompleted(es: seq<Entry>, id: Uuid) {
    forall r | r in es && r.id == id :: !r.completed
  }

  ghost predicate Pending(es: seq<Entry>, id: Uuid) {
    (exists r :: r in es && r.id == id) && NoneCompleted(es, id)
  }

  ghost predicate ReportsId(es: seq<Entry>, id: Uuid) {
    exists r :: r in es && r.id == id
  }

  lemma IncompleteIsPending(es: seq<Entry>, id: Uuid)
    ensures ReportsId(Incomplete(es), id) <==> Pending(es, id)
  {
    KeepMembers(es, CompletedIds(es));
    if Pending(es, id) {
      var r :| r in es && r.id == id;
      assert id !in CompletedIds(es);
      assert r in Incomplete(es);
    }
  }

  /** All entries of the request behind number c are completions, as c itself is. */
  ghost predicate Settled(run: seq<Entry>, c: nat, id: Uuid) {
    c < |run| && run[c].completed && run[c].id == id && forall k | c < k < |run| && run[k].id == id :: run[k].completed
  }

  lemma SettledEnd(run: seq<Entry>, c: nat, id: Uuid, m: nat)
    requires Settled(run, c, id) && m <= |run|
    ensures !Pending(run[m..], id)
  {
    var end := run[m..];
    if r :| r in end && r.id == id && !r.completed {
      var j :| 0 <= j < |end| && end[j] == r;
      assert m + j < c;
      assert end[c - m] == run[c] && run[c] in end;
    }
  }

  /** One more entry in front of the end of such a run. */
  lemma PendingBehind(g: Entry, run: seq<Entry>, c: nat, id: Uuid, m: nat)
    requires Settled(run, c, id) && m <= |run|
    ensures Pending([g] + run[m..], id) <==> g.id == id && !g.completed && NoneCompleted(run[m..], id)
  {
    var end := run[m..];
    SettledEnd(run, c, id, m);
    assert forall r :: r in [g] + end <==> r == g || r in end;
  }

  /** Nothing written completes the request any more, and the torn bytes read as a start entry of it: mixed with
      the remnant of a cut line, or, where no line is left, as a completion entry without its flag. */
  ghost predicate ReadsAsStart(x: UuidText, run: seq<Entry>, e: Entry, n: nat, w: nat, id: Uuid)
    requires w <= |ToLine(x, e)| + 1
  {
    && 0 < w <= |ToLine(x, e)| && NoneCompleted(run[Cut(x, run, n)..], id)
    && if Remnant(x, run, n) != "" then
         var glued := Glued(x, e, w, run[Cut(x, run, n) - 1], Lost(x, run, n));
         glued.Some? && glued.value.id == id && !glued.value.completed
       else
         Cut(x, run, n) == |run| && w == |ToLine(x, e)| - 1 && e.id == id
  }

  lemma GluedPendingIff(x: UuidText, run: seq<Entry>, c: nat, e: Entry, n: nat, w: nat, id: Uuid)
    requires ValidRun(x, run) && e.Valid() && 0 < w <= |ToLine(x, e)| + 1 && Settled(run, c, id)
    requires e.id == id ==> e.completed
    requires Remnant(x, run, n) != ""
    ensures Pending(ReadsAfter(x, e, w, Gap(x, run, n), Remnant(x, run, n), run[Cut(x, run, n)..]), id)
            <==> ReadsAsStart(x, run, e, n, w, id)
  {
    var k := Cut(x, run, n);
    if w <= |ToLine(x, e)| {
      RemnantReads(x, run, e, n, w);
      var glued := Glued(x, e, w, run[k - 1], Lost(x, run, n));
      if glued.Some? {
        PendingBehind(glued.value, run, c, id, k);
      } else {
        SettledEnd(run, c, id, k);
        assert [] + run[k..] == run[k..];
      }
    } else {
      PendingBehind(e, run, c, id, k);
    }
  }

  lemma OneEntryPending(g: Entry, id: Uuid)
    ensures Pending([g], id) <==> g.id == id && !g.completed
  {
    assert g in [g];
  }

  lemma PlainPendingIff(x: UuidText, run: seq<Entry>, c: nat, e: Entry, w: nat, gap: nat, k: nat, id: Uuid)
    requires 0 < w <= |ToLine(x, e)| + 1 && Settled(run, c, id) && k <= |run|
    requires e.id == id ==> e.completed
    ensures Pending(ReadsAfter(x, e, w, gap, "", run[k..]), id)
            <==> k == |run| && w == |ToLine(x, e)| - 1 && e.id == id
  {
    if k == |run| {
      OneEntryPending(e, id);
      OneEntryPending(e.(completed := false), id);
    } else {
      assert run[k..][1..] == run[k + 1..];
      SettledEnd(run, c, id, k + 1);
      PendingBehind(e, run, c, id, k);
      PendingBehind(e, run, c, id, k + 1);
    }
  }

  lemma PendingAfterTearIff(x: UuidText, run: seq<Entry>, c: nat, e: Entry, size: nat, w: nat, n: nat, id: Uuid)
    requires ValidRun(x, run) && e.Valid() && w <= size && w <= |ToLine(x, e)| + 1 && n == size - w
    requires Settled(run, c, id) && (e.id == id ==> e.completed)
    ensures Pending(AfterTear(x, run, e, size, w), id) <==> ReadsAsStart(x, run, e, n, w, id)
  {
    if w == 0 {
      SettledEnd(run, c, id, Cut(x, run, n));
    } else if Remnant(x, run, n) != "" {
      GluedPendingIff(x, run, c, e, n, w, id);
    } else {
      PlainPendingIff(x, run, c, e, w, Gap(x, run, n), Cut(x, run, n), id);
    }
  }

  /** A request completed after all its starts is reported after a torn write exactly if the torn bytes read as
      a start entry of it and none of its completions is left; for every run, ring and crash point of up to
      a ring of bytes. */
  lemma CompletedAfterTearIff(x: UuidText, run: seq<Entry>, c: nat, e: Entry, size: nat, w: nat, id: Uuid)
    requires ValidRun(x, run) && e.Valid() && 0 < size && w <= size && w <= |ToLine(x, e)| + 1
    requires Settled(run, c, id) && (e.id == id ==> e.completed)
    ensures ReportsId(ReportedAfterTear(x, run, e, size, w), id) <==> ReadsAsStart(x, run, e, size - w, w, id)
  {
    TearReads(x, run, e, size, w, Torn(JournalWindow(x, run, size), ToLine(x, e), w));
    IncompleteIsPending(AfterTear(x, run, e, size, w), id);
    PendingAfterTearIff(x, run, c, e, size, w, size - w, id);
  }

  // ---- Writing on after a crash ----

  /** Two windows become the same when what is written next does not leave a byte in which they differ. */
  lemma WindowsMeetIff(v: string, t: string, s: string, k: nat)
    requires |v| == |t| && k == if |s| < |v| then |s| else |v|
    ensures Last(|v|, t + s) == Last(|v|, v + s) <==> t[k..] == v[k..]
  {
    assert Last(|v|, t + s) == t[k..] + Last(k, s);
    assert Last(|v|, v + s) == v[k..] + Last(k, s);
    if t[k..] + Last(k, s) == v[k..] + Last(k, s) {
      assert t[k..] == (t[k..] + Last(k, s))[..|v| - k];
      assert v[k..] == (v[k..] + Last(k, s))[..|v| - k];
    }
  }

  lemma WriteOn(x: UuidText, window: string, more: seq<Entry>)
    ensures WindowAfter(window, RunLines(x, more)) == Last(|window|, window + Stream(x, more))
  {
    RunRefinesHistory(window, RunLines(x, more));
    StreamIsJoined(x, more);
  }

  lemma JournalGoesOn(x: UuidText, run: seq<Entry>, more: seq<Entry>, size: nat)
    ensures JournalWindow(x, run + more, size) == Last(size, JournalWindow(x, run, size) + Stream(x, more))
  {
    var zeros, s, t := Zeros(size), Stream(x, run), Stream(x, more);
    WindowIsPadded(x, run, size);
    WindowIsPadded(x, run + more, size);
    StreamConcat(x, run, more, run + more);
    LastOfLast(size, zeros + s, t);
    ConcatAssoc(zeros, s, t);
  }

  /** What is written after a crash leaves the journal as if there had been no torn write, exactly when
      it goes beyond the torn bytes, or beyond those of them that changed the window. */
  lemma TearIsErasedIff(x: UuidText, run: seq<Entry>, e: Entry, more: seq<Entry>, size: nat, w: nat, k: nat)
    requires 0 < size && w <= |ToLine(x, e)| + 1
    requires k == if |Stream(x, more)| < size then |Stream(x, more)| else size
    ensures var before := JournalWindow(x, run, size);
            var torn := Torn(before, ToLine(x, e), w);
            WindowAfter(torn, RunLines(x, more)) == JournalWindow(x, run + more, size) <==> torn[k..] == before[k..]
  {
    var before := JournalWindow(x, run, size);
    var torn := Torn(before, ToLine(x, e), w);
    WriteOn(x, torn, more);
    JournalGoesOn(x, run, more, size);
    WindowsMeetIff(before, torn, Stream(x, more), k);
  }

  lemma OverwrittenBehind(window: string, data: string, k: nat)
    requires window != [] && k <= |window| && (|data| <= k || k == |window|)
    ensures Overwritten(window, data)[k..] == window[k..]
  {
  }

  /** What is reported after more records were written to what a window held. */
  ghost function ReportedAfterMore(x: UuidText, window: string, more: seq<Entry>): seq<Entry> {
    Incomplete(ParseText(x, TrimNul(WindowAfter(window, RunLines(x, more)))))
  }

  /** At least as many bytes as the torn write stored erase it, for every run and ring. */
  lemma TearIsErased(x: UuidText, run: seq<Entry>, e: Entry, more: seq<Entry>, size: nat, w: nat, window: string)
    requires 0 < size && w <= |ToLine(x, e)| + 1 && w <= |Stream(x, more)|
    requires window == Torn(JournalWindow(x, run, size), ToLine(x, e), w)
    ensures WindowAfter(window, RunLines(x, more)) == JournalWindow(x, run + more, size)
  {
    var k := if |Stream(x, more)| < size then |Stream(x, more)| else size;
    TearIsErasedIff(x, run, e, more, size, w, k);
    OverwrittenBehind(JournalWindow(x, run, size), (ToLine(x, e) + "\n")[..w], k);
  }

  /** ... and then the journal reads as if the process had never died. */
  lemma ErasedTearIsNotSeen(x: UuidText, run: seq<Entry>, e: Entry, more: seq<Entry>, size: nat, w: nat)
    requires 0 < size && w <= |ToLine(x, e)| + 1 && w <= |Stream(x, more)|
    ensures ReportedAfterMore(x, Torn(JournalWindow(x, run, size), ToLine(x, e), w), more)
            == Reported(x, run + more, size)
  {
    TearIsErased(x, run, e, more, size, w, Torn(JournalWindow(x, run, size), ToLine(x, e), w));
  }

  /** A process goes on in a journal left behind; the next one reads it. */
  method WriteOnAndRecover(x: UuidText, file: string, more: seq<Entry>) returns (result: seq<Entry>)
    requires MIN_SIZE <= |file| < Pow256(8)
    ensures result == ReportedAfterMore(x, WindowOf(file), more)
  {
    var journal := new RequestJournal.Open(file, |file|, x);
    OpenedReads(file, |file|);
    journal.buffer.WindowIsOfFile();
    journal.WriteAll(more);
    journal.buffer.WindowIsOfFile();
    result := Recover(x, journal.buffer.mmap[..]);
  }

  /** ... after a process that wrote a run died inside one more write. */
  method CrashAndWriteOn(x: UuidText, run: seq<Entry>, e: Entry, more: seq<Entry>, size: nat, w: nat)
    returns (result: seq<Entry>)
    requires MIN_SIZE <= size < Pow256(8) && w <= |ToLine(x, e)| + 1
    ensures result == ReportedAfterMore(x, Torn(JournalWindow(x, run, size - HEADER_SIZE), ToLine(x, e), w), more)
  {
    var file := WriteAndDie(x, run, e, size, w);
    result := WriteOnAndRecover(x, file, more);
  }

  // ---- What goes wrong, on exactly filled rings and on new files ----

  /** While the ring has not wrapped, one byte is enough to lose the oldest record. */
  lemma OneByteLosesOldest(x: UuidText, run: seq<Entry>, e: Entry, size: nat)
    requires ValidRun(x, run) && e.Valid() && run != [] && |Stream(x, run)| < size
    ensures AfterTear(x, run, e, size, 1) == run[1..]
  {
    LineShape(x, e);
  }

  lemma StreamCons(x: UuidText, e: Entry, run: seq<Entry>, rest: seq<Entry>)
    requires run == [e] + rest
    ensures |Stream(x, run)| == |ToLine(x, e)| + 1 + |Stream(x, rest)|
  {
    assert run[1..] == rest;
  }

  lemma CutAfterOldest(x: UuidText, oldest: Entry, rest: seq<Entry>, run: seq<Entry>, n: nat)
    requires run == [oldest] + rest && |Stream(x, rest)| <= n < |Stream(x, run)|
    ensures run[Cut(x, run, n)..] == rest
  {
    assert run[1..] == rest;
    assert Cut(x, rest, n) == 0;
  }

  lemma RemnantOfOldest(x: UuidText, oldest: Entry, rest: seq<Entry>, run: seq<Entry>, n: nat)
    requires run == [oldest] + rest && |Stream(x, rest)| < n < |Stream(x, run)|
    ensures Remnant(x, run, n) == Last(n - |Stream(x, rest)|, ToLine(x, oldest) + "\n")
  {
    assert run[1..] == rest && run[0] == oldest;
  }

  lemma FlagAndBreak(line: string, flag: string)
    requires |line| > 2 && |flag| == 1 && line[|line| - 1] == flag[0]
    ensures Last(2, line + "\n") == flag + "\n"
  {
  }

  lemma BorrowedFlagReads(x: UuidText, e: Entry, flag: string, torn: string)
    requires x.Lawful() && e.Valid() && flag in {"0", "1"} && torn == ToLine(x, e)[..|ToLine(x, e)| - 1]
    ensures Read(x, torn + flag) == [e.(completed := flag == "1")]
  {
    LastByte(x, e);
    assert "J|" + Fields(x, e, "") + flag == "J|" + Fields(x, e, flag);
    ParseOfFields(x, e, flag);
  }

  /** In an exactly filled ring, torn bytes that lack only the last byte take it from the oldest record. */
  lemma OldestLendsFlag(x: UuidText, oldest: Entry, rest: seq<Entry>, e: Entry, size: nat)
    requires ValidRun(x, [oldest] + rest) && e.Valid()
    requires |Stream(x, [oldest] + rest)| == size && |ToLine(x, oldest)| == |ToLine(x, e)|
    ensures 0 < |ToLine(x, e)| <= size
    ensures AfterTear(x, [oldest] + rest, e, size, |ToLine(x, e)| - 1) == [e.(completed := oldest.completed)] + rest
  {
    var line, flag := ToLine(x, e), Flag(oldest);
    LastByte(x, e);
    LastByte(x, oldest);
    var run, n := [oldest] + rest, |Stream(x, rest)| + 2;
    StreamCons(x, oldest, run, rest);
    CutAfterOldest(x, oldest, rest, run, n);
    RemnantOfOldest(x, oldest, rest, run, n);
    FlagAndBreak(ToLine(x, oldest), flag);
    assert (flag + "\n")[..1] == flag;
    BorrowedFlagReads(x, e, flag, line[..|line| - 1]);
  }

  // ---- Crashes in the journal as it is opened, with ids in the hyphenated form ----

  /** The torn bytes always fit the ring, so TearReads leaves out no crash point. */
  lemma EveryTearReads(x: UuidText, run: seq<Entry>, e: Entry, w: nat, window: string)
    requires ValidRun(x, run) && x.Hyphenated() && e.Valid() && w <= |ToLine(x, e)| + 1
    requires window == Torn(JournalWindow(x, run, JOURNAL_RING), ToLine(x, e), w)
    ensures w <= JOURNAL_RING && ParseText(x, TrimNul(window)) == AfterTear(x, run, e, JOURNAL_RING, w)
  {
    LinesAreShort(x, e);
    TearReads(x, run, e, JOURNAL_RING, w, window);
  }

  lemma OnePending(e: Entry)
    requires !e.completed
    ensures Incomplete([e]) == [e]
  {
    var es, done := [e], CompletedIds([e]);
    assert es[..0] == [] && done == {};
    assert Keep(es[..0], done) == [];
  }

  lemma OneLineFits(x: UuidText, e: Entry)
    requires x.Hyphenated() && e.Valid()
    ensures 0 < |Stream(x, [e])| < JOURNAL_RING
  {
    LinesAreShort(x, e);
    StreamCons(x, e, [e], []);
  }

  /** The first byte of the next record, of whatever request, makes the only pending request unreported. */
  lemma PendingRequestLost(x: UuidText, pending: Entry, next: Entry)
    requires x.Lawful() && x.Hyphenated() && pending.Valid() && !pending.completed && next.Valid()
    ensures Reported(x, [pending], JOURNAL_RING) == [pending]
    ensures ReportedAfterTear(x, [pending], next, JOURNAL_RING, 1) == []
  {
    var run := [pending];
    OneLineFits(x, pending);
    OnePending(pending);
    ReportedExactly(x, run, JOURNAL_RING, pending);
    assert run[0..] == run && run[1..] == [];
    TearReads(x, run, next, JOURNAL_RING, 1, Torn(JournalWindow(x, run, JOURNAL_RING), ToLine(x, next), 1));
    OneByteLosesOldest(x, run, next, JOURNAL_RING);
    assert Keep([], CompletedIds([])) == [];
  }

  /** Written from 2001 to 2286, with a count below the given power of ten and not below the one before it. */
  predicate CountDigits(e: Entry, digits: nat)
    requires digits in {1, 2}
  {
    && 1_000_000_000 <= e.timestamp < 10_000_000_000
    && if digits == 1 then 0 <= e.mappingCount < 10 else 10 <= e.mappingCount < 100
  }

  lemma LineOfDigits(x: UuidText, e: Entry, digits: nat)
    requires x.Hyphenated() && digits in {1, 2} && CountDigits(e, digits)
    ensures |ToLine(x, e)| == 52 + digits && e.Valid()
  {
    LineLength(x, e);
    Powers();
    Decimal.PrintNatLength(e.timestamp, 9);
    Decimal.PrintNatLength(e.timestamp, 10);
    Decimal.PrintNatLength(e.mappingCount, 1);
    Decimal.PrintNatLength(e.mappingCount, 2);
  }

  lemma OneLineMore(x: UuidText, run: seq<Entry>, digits: nat, n: nat)
    requires x.Hyphenated() && digits in {1, 2} && run != [] && CountDigits(run[0], digits)
    requires |Stream(x, run[1..])| == n
    ensures |Stream(x, run)| == 53 + digits + n
  {
    LineOfDigits(x, run[0], digits);
    StreamCons(x, run[0], run, run[1..]);
  }

  lemma {:induction false} StreamOfDigits(x: UuidText, run: seq<Entry>, digits: nat, n: nat)
    requires x.Hyphenated() && digits in {1, 2} && forall e | e in run :: CountDigits(e, digits)
    requires n == |run|
    ensures |Stream(x, run)| == if digits == 1 then 54 * n else 55 * n
  {
    if n > 0 {
      StreamOfDigits(x, run[1..], digits, n - 1);
      OneLineMore(x, run, digits, if digits == 1 then 54 * (n - 1) else 55 * (n - 1));
    }
  }

  /** A run whose lines fill the ring exactly: 1187 counts of one digit, the first of them in a completion
      record, then 26 counts of two digits. */
  predicate FillsJournal(run: seq<Entry>) {
    && |run| == 1213 && run[0].completed
    && (forall e | e in run[..1187] :: CountDigits(e, 1))
    && (forall e | e in run[1187..] :: CountDigits(e, 2))
  }

  lemma FilledRing(x: UuidText, run: seq<Entry>, short: seq<Entry>, long: seq<Entry>)
    requires x.Lawful() && x.Hyphenated() && run == short + long && |short| == 1187 && |long| == 26
    requires (forall e | e in short :: CountDigits(e, 1)) && forall e | e in long :: CountDigits(e, 2)
    ensures ValidRun(x, run) && |Stream(x, run)| == JOURNAL_RING
  {
    StreamOfDigits(x, short, 1, 1187);
    StreamOfDigits(x, long, 2, 26);
    StreamConcat(x, short, long, run);
  }

  /** A torn start record of a new request reads as a completion record that nobody wrote, and all other
      records but the oldest read as they were. */
  lemma CompletionForged(x: UuidText, run: seq<Entry>, next: Entry)
    requires x.Lawful() && x.Hyphenated() && FillsJournal(run)
    requires CountDigits(next, 1) && !next.completed && forall e | e in run :: e.id != next.id
    ensures |ToLine(x, next)| == 53
    ensures AfterTear(x, run, next, JOURNAL_RING, 52) == [next.(completed := true)] + run[1..]
    ensures next.(completed := true) !in run
  {
    FilledRing(x, run, run[..1187], run[1187..]);
    assert run[0] == run[..1187][0];
    LineOfDigits(x, run[0], 1);
    LineOfDigits(x, next, 1);
    assert run == [run[0]] + run[1..];
    OldestLendsFlag(x, run[0], run[1..], next, JOURNAL_RING);
  }

  /** A record of the day 1.7 billion seconds after 1970. */
  function Written(id: Uuid, count: nat, completed: bool): Entry {
    Entry(id, 1_700_000_000, count, completed)
  }

  /** One completion and 1212 starts of different requests. */
  function ExampleRun(): (run: seq<Entry>)
    ensures |run| == 1213 && run[0] == Written(0, 1, true)
    ensures forall i: Uuid | 0 < i < 1187 :: run[i] == Written(i, 1, false)
    ensures forall i: Uuid | 1187 <= i < 1213 :: run[i] == Written(i, 10, false)
  {
    seq(1213, (i: nat) => if i < 1213 then Written(i, if i < 1187 then 1 else 10, i == 0) else Written(0, 1, true))
  }

  lemma ExampleFills()
    ensures FillsJournal(ExampleRun()) && forall e | e in ExampleRun() :: e.id < 1213
  {
    var run := ExampleRun();
    forall e | e in run[..1187]
      ensures CountDigits(e, 1)
    {
      var i: nat :| i < 1187 && run[..1187][i] == e;
      assert run[i] == Written(i, 1, i == 0);
    }
    forall e | e in run[1187..]
      ensures CountDigits(e, 2)
    {
      var i: nat :| i < 26 && run[1187..][i] == e;
      assert run[1187 + i] == Written(1187 + i, 10, false);
    }
    forall e | e in run
      ensures e.id < 1213
    {
      var i: nat :| i < 1213 && run[i] == e;
    }
  }

  /** Such a run, with ids in hexadecimal. */
  lemma ExampleIsForged()
    ensures var run, next := ExampleRun(), Written(5000, 1, false);
            && HexIds().Lawful() && ValidRun(HexIds(), run) && |ToLine(HexIds(), next)| == 53
            && AfterTear(HexIds(), run, next, JOURNAL_RING, 52) == [Written(5000, 1, true)] + run[1..]
            && Written(5000, 1, true) !in run
  {
    var run, next := ExampleRun(), Written(5000, 1, false);
    HexIdsAreLawful();
    ExampleFills();
    FilledRing(HexIds(), run, run[..1187], run[1187..]);
    CompletionForged(HexIds(), run, next);
  }
}
