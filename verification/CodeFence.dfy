/** Masking of Markdown code before a text is scanned (hybrid_scanner.rs). */
module CodeFence {
  import opened Text
  import opened Utf8

  predicate FenceAt(s: string, i: nat) {
    i + 2 < |s| && s[i] == '`' && s[i + 1] == '`' && s[i + 2] == '`'
  }

  /** The next line break from i on, or the end of the text. */
  function LineEnd(s: string, i: nat): (j: nat)
    requires i <= |s|
    ensures i <= j <= |s| && (j < |s| ==> s[j] == '\n')
    decreases |s| - i
  {
    if i < |s| && s[i] != '\n' then LineEnd(s, i + 1) else i
  }

  function NextFence(s: string, i: nat): (r: Option<nat>)
    requires i <= |s|
    ensures r.Some? ==> i <= r.value && FenceAt(s, r.value)
    decreases |s| - i
  {
    if i + 2 >= |s| then None
    else if FenceAt(s, i) then Some(i)
    else NextFence(s, i + 1)
  }

  /** The next backtick on the same line. */
  function ClosingTick(s: string, i: nat): (r: Option<nat>)
    requires i <= |s|
    ensures r.Some? ==> i <= r.value < |s| && s[r.value] == '`'
    decreases |s| - i
  {
    if i == |s| then None
    else if s[i] == '`' then Some(i)
    else if s[i] == '\n' then None
    else ClosingTick(s, i + 1)
  }

  function ContentStart(s: string, i: nat): (j: nat)
    requires i <= |s|
    ensures i <= j <= |s|
  {
    var e := LineEnd(s, i);
    if e < |s| then e + 1 else e
  }

  /** A range start..end of bytes to mask. */
  datatype Range = Range(start: nat, end: nat)

  /** One round of the scan at position i: what it masks, and where it goes on. A fence that never
      closes is passed over and its content is searched again, so the scan backtracks to just
      after the opening marks. */
  function Step(s: string, i: nat): (r: (seq<Range>, nat))
    requires i < |s|
    ensures i < r.1 <= |s|
  {
    if FenceAt(s, i) then
      match NextFence(s, ContentStart(s, i + 3))
      case Some(j) => ([Range(i, j)], LineEnd(s, j + 3))
      case None => ([], i + 3)
    else if s[i] == '`' then
      match ClosingTick(s, i + 1)
      case Some(j) => ([Range(i, j + 1)], j + 1)
      case None => ([], i + 1)
    else ([], i + 1)
  }

  /** The ranges masked from position i on. */
  function Ranges(s: string, i: nat): seq<Range>
    requires i <= |s|
    decreases |s| - i
  {
    if i == |s| then [] else Step(s, i).0 + Ranges(s, Step(s, i).1)
  }

  function MaskedByte(c: char): char {
    if c == '\n' then c else ' '
  }

  function Blank(s: string): (r: string)
    ensures |r| == |s| && forall k | 0 <= k < |s| :: r[k] == MaskedByte(s[k])
  {
    seq(|s|, k requires 0 <= k < |s| => MaskedByte(s[k]))
  }

  function MaskRange(s: string, r: Range): (m: string)
    requires r.start <= r.end <= |s|
    ensures |m| == |s|
  {
    s[..r.start] + Blank(s[r.start..r.end]) + s[r.end..]
  }

  ghost predicate Covered(rs: seq<Range>, k: int) {
    exists r :: r in rs && r.start <= k < r.end
  }

  /** The text with every byte of every range masked. */
  ghost function Masked(s: string, rs: seq<Range>): (m: string)
    ensures |m| == |s|
  {
    seq(|s|, k requires 0 <= k < |s| => if Covered(rs, k) then MaskedByte(s[k]) else s[k])
  }

  // ---- The masking loop ----

  method Mask(out: array<char>, start: nat, end: nat)
    requires start <= end <= out.Length
    modifies out
    ensures out[..] == MaskRange(old(out[..]), Range(start, end))
  {
    for j := start to end
      invariant forall k | 0 <= k < out.Length ::
                  out[k] == if start <= k < j then MaskedByte(old(out[k])) else old(out[k])
    {
      if out[j] != '\n' {
        out[j] := ' ';
      }
    }
  }

  method SkipLine(bytes: string, from: nat) returns (i: nat)
    requires from <= |bytes|
    ensures i == LineEnd(bytes, from)
  {
    i := from;
    while i < |bytes| && bytes[i] != '\n'
      invariant from <= i <= |bytes| && LineEnd(bytes, i) == LineEnd(bytes, from)
    {
      i := i + 1;
    }
  }

  /** What one round of the loop does to the buffer. */
  ghost predicate StepDone(bytes: string, from: nat, before: string, after: string, next: nat)
    requires from < |bytes|
  {
    next == Step(bytes, from).1 && |before| == |bytes| && after == Masked(before, Step(bytes, from).0)
  }

  lemma MaskedOne(s: string, r: Range)
    requires r.start <= r.end <= |s|
    ensures Masked(s, [r]) == MaskRange(s, r)
  {
    assert forall k :: Covered([r], k) <==> r.start <= k < r.end by {
      assert r in [r];
    }
  }

  lemma MaskedNone(s: string)
    ensures Masked(s, []) == s
  {
  }

  method FindFence(bytes: string, from: nat) returns (r: Option<nat>)
    requires from <= |bytes|
    ensures r == NextFence(bytes, from)
  {
    var i := from;
    while i + 2 < |bytes|
      invariant from <= i <= |bytes| && NextFence(bytes, i) == NextFence(bytes, from)
    {
      if FenceAt(bytes, i) {
        return Some(i);
      }
      i := i + 1;
    }
    r := None;
  }

  lemma MaskInTwoParts(s: string, a: nat, b: nat, c: nat)
    requires a <= b <= c <= |s|
    ensures MaskRange(MaskRange(s, Range(b, c)), Range(a, b)) == MaskRange(s, Range(a, c))
  {
  }

  /** Masks the content of a fence, then its opening line. */
  method MaskBlock(out: array<char>, fenceStart: nat, contentStart: nat, close: nat)
    requires fenceStart <= contentStart <= close <= out.Length
    modifies out
    ensures out[..] == Masked(old(out[..]), [Range(fenceStart, close)])
  {
    MaskInTwoParts(out[..], fenceStart, contentStart, close);
    MaskedOne(out[..], Range(fenceStart, close));
    Mask(out, contentStart, close);
    Mask(out, fenceStart, contentStart);
  }

  /** The masking of an opened fence: where scanning goes on, and what was masked. */
  method MaskFence(bytes: string, out: array<char>, fenceStart: nat) returns (i: nat)
    requires FenceAt(bytes, fenceStart) && out.Length == |bytes|
    modifies out
    ensures StepDone(bytes, fenceStart, old(out[..]), out[..], i)
  {
    i := SkipLine(bytes, fenceStart + 3);
    if i < |bytes| {
      i := i + 1;
    }
    var contentStart := i;
    var close := FindFence(bytes, contentStart);
    if close.Some? {
      i := SkipLine(bytes, close.value + 3);
      MaskBlock(out, fenceStart, contentStart, close.value);
    } else {
      // The fence never closes: nothing is masked and scanning resumes after its marks.
      MaskedNone(out[..]);
      i := fenceStart + 3;
    }
  }

  method MaskInline(bytes: string, out: array<char>, start: nat) returns (i: nat)
    requires start < |bytes| && bytes[start] == '`' && !FenceAt(bytes, start) && out.Length == |bytes|
    modifies out
    ensures StepDone(bytes, start, old(out[..]), out[..], i)
  {
    ghost var before := out[..];
    i := start + 1;
    while i < |bytes| && bytes[i] != '`' && bytes[i] != '\n'
      invariant start < i <= |bytes| && ClosingTick(bytes, i) == ClosingTick(bytes, start + 1)
    {
      i := i + 1;
    }
    if i < |bytes| && bytes[i] == '`' {
      Mask(out, start, i + 1);
      MaskedOne(before, Range(start, i + 1));
      i := i + 1;
    } else {
      MaskedNone(before);
      i := start + 1;
    }
  }

  method MaskStep(text: string, out: array<char>, from: nat) returns (i: nat)
    requires from < |text| == out.Length
    modifies out
    ensures StepDone(text, from, old(out[..]), out[..], i)
  {
    if FenceAt(text, from) {
      i := MaskFence(text, out, from);
    } else if text[from] == '`' {
      i := MaskInline(text, out, from);
    } else {
      MaskedNone(out[..]);
      i := from + 1;
    }
  }

  lemma MaskedAppend(s: string, done: seq<Range>, more: seq<Range>)
    ensures Masked(s, done + more) == Masked(Masked(s, done), more)
  {
    forall k | 0 <= k < |s|
      ensures Covered(done + more, k) <==> Covered(done, k) || Covered(more, k)
    {
      assert forall r :: r in done + more <==> r in done || r in more;
    }
  }

  /** The ranges before i are masked, those from i on are still to come. */
  ghost predicate Progress(text: string, i: nat, done: seq<Range>, out: string) {
    i <= |text| && done + Ranges(text, i) == Ranges(text, 0) && out == Masked(text, done)
  }

  lemma ProgressStep(text: string, i: nat, done: seq<Range>, before: string, after: string, next: nat)
    requires i < |text| && Progress(text, i, done, before) && StepDone(text, i, before, after, next)
    ensures Progress(text, next, done + Step(text, i).0, after)
  {
    var masked := Step(text, i).0;
    MaskedAppend(text, done, masked);
    assert done + Ranges(text, i) == (done + masked) + Ranges(text, next);
  }

  // ---- What is masked, in terms of the text ----

  /** Three backticks at a position. */
  predicate Marks(s: string, a: nat) {
    a + 3 <= |s| && s[a..a + 3] == "```"
  }

  predicate Lacks(s: string, c: char, from: nat, to: nat) {
    to <= |s| && forall k | from <= k < to :: s[k] != c
  }

  /** The line that position i is on ends at e, at a line break or with the text. */
  predicate EndsLine(s: string, i: nat, e: nat) {
    i <= e <= |s| && Lacks(s, '\n', i, e) && (e == |s| || s[e] == '\n')
  }

  predicate NoMarks(s: string, from: nat, to: nat) {
    forall k: nat | from <= k < to :: !Marks(s, k)
  }

  /** Marks at a, and the end of their line. */
  predicate MarkedLine(s: string, a: nat, e: nat) {
    Marks(s, a) && EndsLine(s, a + 3, e)
  }

  /** Opening marks at a, closed by the first marks at b after their line. */
  ghost predicate Block(s: string, a: nat, b: nat) {
    Marks(s, b) && exists e: nat :: MarkedLine(s, a, e) && e < b && NoMarks(s, e + 1, b)
  }

  ghost predicate Closed(s: string, a: nat) {
    exists b: nat :: Block(s, a, b)
  }

  /** A tick at a that opens no fence, and the next one at b, on the same line. */
  predicate Inline(s: string, a: nat, b: nat) {
    a < b < |s| && s[a] == '`' && !Marks(s, a) && s[b] == '`' && Lacks(s, '`', a + 1, b) && Lacks(s, '\n', a + 1, b)
  }

  ghost predicate Paired(s: string, a: nat) {
    exists b: nat :: Inline(s, a, b)
  }

  /** Having looked at position a, the scan looks at position next: behind the line of the closing marks or behind
      the closing tick, if there are any, and otherwise behind the marks or the single byte. */
  ghost predicate Moves(s: string, a: nat, next: nat) {
    && a < |s|
    && if Marks(s, a) then
         (exists b: nat :: Block(s, a, b) && MarkedLine(s, b, next)) || (!Closed(s, a) && next == a + 3)
       else
         (exists b: nat :: Inline(s, a, b) && next == b + 1) || (!Paired(s, a) && next == a + 1)
  }

  /** The scan goes from one position to another over these. */
  ghost predicate Trail(s: string, trail: seq<nat>, from: nat, to: nat) {
    && trail != [] && trail[0] == from && trail[|trail| - 1] == to
    && forall j | 0 <= j < |trail| - 1 :: Moves(s, trail[j], trail[j + 1])
  }

  ghost predicate Reaches(s: string, from: nat, to: nat) {
    exists trail :: Trail(s, trail, from, to)
  }

  /** The byte is code: the scan reaches opening marks, and it lies from them up to the closing ones, or a tick, and
      it lies from it up to and including the next one. */
  ghost predicate InStretch(s: string, a: nat, k: nat) {
    (exists b: nat :: Block(s, a, b) && a <= k < b) || (exists b: nat :: Inline(s, a, b) && a <= k <= b)
  }

  ghost predicate InCode(s: string, from: nat, k: nat) {
    exists a: nat :: Reaches(s, from, a) && InStretch(s, a, k)
  }

  lemma MarksAre(s: string, a: nat)
    ensures FenceAt(s, a) <==> Marks(s, a)
  {
    if a + 3 <= |s| {
      var m := s[a..a + 3];
      assert m[0] == s[a] && m[1] == s[a + 1] && m[2] == s[a + 2];
    }
  }

  lemma {:induction false} LineEndEnds(s: string, i: nat, e: nat)
    requires i <= |s|
    ensures EndsLine(s, i, e) <==> e == LineEnd(s, i)
    decreases |s| - i
  {
    if i < |s| && s[i] != '\n' {
      LineEndEnds(s, i + 1, e);
    }
  }

  lemma {:induction false} NextFenceIsFirst(s: string, i: nat, b: nat)
    requires i <= |s|
    ensures NextFence(s, i) == Some(b) <==> i <= b && Marks(s, b) && NoMarks(s, i, b)
    decreases |s| - i
  {
    MarksAre(s, i);
    MarksAre(s, b);
    if i + 2 < |s| && !FenceAt(s, i) {
      NextFenceIsFirst(s, i + 1, b);
    }
  }

  lemma BlockIff(s: string, a: nat, b: nat)
    requires FenceAt(s, a)
    ensures Block(s, a, b) <==> NextFence(s, ContentStart(s, a + 3)) == Some(b)
  {
    var e, c := LineEnd(s, a + 3), ContentStart(s, a + 3);
    LineEndEnds(s, a + 3, e);
    NextFenceIsFirst(s, c, b);
    MarksAre(s, a);
    assert MarkedLine(s, a, e);
    if f: nat :| MarkedLine(s, a, f) && f < b && NoMarks(s, f + 1, b) {
      LineEndEnds(s, a + 3, f);
    }
  }

  lemma {:induction false} ClosingTickIsNext(s: string, i: nat, b: nat)
    requires i <= |s|
    ensures ClosingTick(s, i) == Some(b)
            <==> i <= b < |s| && s[b] == '`' && Lacks(s, '`', i, b) && Lacks(s, '\n', i, b)
    decreases |s| - i
  {
    if i < |s| && s[i] != '`' && s[i] != '\n' {
      ClosingTickIsNext(s, i + 1, b);
    }
  }

  lemma InlineIff(s: string, a: nat, b: nat)
    requires a < |s| && !FenceAt(s, a)
    ensures Inline(s, a, b) <==> s[a] == '`' && ClosingTick(s, a + 1) == Some(b)
  {
    MarksAre(s, a);
    ClosingTickIsNext(s, a + 1, b);
  }

  lemma StepMoves(s: string, i: nat, next: nat)
    requires i < |s|
    ensures Moves(s, i, next) <==> next == Step(s, i).1
  {
    MarksAre(s, i);
    if FenceAt(s, i) {
      forall b: nat
        ensures Block(s, i, b) <==> NextFence(s, ContentStart(s, i + 3)) == Some(b)
        ensures Marks(s, b) ==> (EndsLine(s, b + 3, next) <==> next == LineEnd(s, b + 3))
      {
        BlockIff(s, i, b);
        if Marks(s, b) {
          LineEndEnds(s, b + 3, next);
        }
      }
    } else {
      forall b: nat
        ensures Inline(s, i, b) <==> s[i] == '`' && ClosingTick(s, i + 1) == Some(b)
      {
        InlineIff(s, i, b);
      }
    }
  }

  lemma StepStretch(s: string, i: nat, k: nat)
    requires i < |s|
    ensures Covered(Step(s, i).0, k) <==> InStretch(s, i, k)
  {
    MarksAre(s, i);
    if FenceAt(s, i) {
      forall b: nat
        ensures Block(s, i, b) <==> NextFence(s, ContentStart(s, i + 3)) == Some(b)
      {
        BlockIff(s, i, b);
      }
    } else {
      forall b: nat
        ensures Inline(s, i, b) <==> s[i] == '`' && ClosingTick(s, i + 1) == Some(b)
        ensures !Block(s, i, b)
      {
        InlineIff(s, i, b);
      }
    }
  }

  lemma TrailRest(s: string, trail: seq<nat>, from: nat, to: nat)
    requires Trail(s, trail, from, to) && |trail| > 1
    ensures Moves(s, from, trail[1]) && Trail(s, trail[1..], trail[1], to)
  {
    forall j | 0 <= j < |trail[1..]| - 1
      ensures Moves(s, trail[1..][j], trail[1..][j + 1])
    {
      assert Moves(s, trail[j + 1], trail[j + 1 + 1]);
    }
  }

  lemma TrailMore(s: string, trail: seq<nat>, from: nat, next: nat, to: nat)
    requires Moves(s, from, next) && Trail(s, trail, next, to)
    ensures Trail(s, [from] + trail, from, to)
  {
    var all := [from] + trail;
    forall j | 0 <= j < |all| - 1
      ensures Moves(s, all[j], all[j + 1])
    {
      if j > 0 {
        assert Moves(s, trail[j - 1], trail[j - 1 + 1]);
      }
    }
  }

  /** Where the scan gets from a position: there, or where it gets from the next one. */
  lemma ReachesFrom(s: string, from: nat, next: nat, to: nat)
    requires from < |s| && next == Step(s, from).1
    ensures Reaches(s, from, to) <==> to == from || Reaches(s, next, to)
  {
    StepMoves(s, from, next);
    if trail :| Trail(s, trail, from, to) {
      if |trail| > 1 {
        TrailRest(s, trail, from, to);
        StepMoves(s, from, trail[1]);
      }
    }
    if to == from {
      assert Trail(s, [from], from, to);
    }
    if trail :| Trail(s, trail, next, to) {
      TrailMore(s, trail, from, next, to);
    }
  }

  lemma EndsAtEnd(s: string, to: nat)
    ensures Reaches(s, |s|, to) <==> to == |s|
  {
    if trail :| Trail(s, trail, |s|, to) {
      assert |trail| > 1 ==> Moves(s, trail[0], trail[0 + 1]);
    }
    assert Trail(s, [|s|], |s|, |s|);
  }

  lemma CoveredInTwo(a: seq<Range>, b: seq<Range>, k: nat)
    ensures Covered(a + b, k) <==> Covered(a, k) || Covered(b, k)
  {
    assert forall r :: r in a + b <==> r in a || r in b;
  }

  lemma InCodeStep(s: string, i: nat, next: nat, k: nat)
    requires i < |s| && next == Step(s, i).1
    ensures InCode(s, i, k) <==> InStretch(s, i, k) || InCode(s, next, k)
  {
    forall a: nat
      ensures Reaches(s, i, a) <==> a == i || Reaches(s, next, a)
    {
      ReachesFrom(s, i, next, a);
    }
  }

  /** A byte lies in a masked range if and only if it is code. */
  lemma {:induction false} CoveredIffInCode(s: string, i: nat, k: nat)
    requires i <= |s|
    ensures Covered(Ranges(s, i), k) <==> InCode(s, i, k)
    decreases |s| - i
  {
    if i == |s| {
      forall a: nat
        ensures Reaches(s, i, a) && InStretch(s, a, k) ==> false
      {
        EndsAtEnd(s, a);
      }
    } else {
      var next := Step(s, i).1;
      CoveredIffInCode(s, next, k);
      CoveredInTwo(Step(s, i).0, Ranges(s, next), k);
      StepStretch(s, i, k);
      InCodeStep(s, i, next, k);
    }
  }

  /** Exactly what is masked: every byte of code is a space or the line break it was, every other byte is the
      original. */
  lemma ExactlyCodeIsMasked(text: string, k: nat)
    requires k < |text|
    ensures Masked(text, Ranges(text, 0))[k] == if InCode(text, 0, k) && text[k] != '\n' then ' ' else text[k]
  {
    CoveredIffInCode(text, 0, k);
  }

  method MaskCodeFences(text: string) returns (result: string)
    ensures result == Masked(text, Ranges(text, 0))
    ensures forall k: nat | k < |text| :: result[k] == if InCode(text, 0, k) && text[k] != '\n' then ' ' else text[k]
  {
    var out := new char[|text|](i requires 0 <= i < |text| => text[i]);
    var i := 0;
    ghost var done: seq<Range> := [];
    MaskedNone(text);
    assert out[..] == text;
    while i < |text|
      invariant Progress(text, i, done, out[..])
      decreases |text| - i
    {
      ghost var from, before := i, out[..];
      i := MaskStep(text, out, i);
      ProgressStep(text, from, done, before, out[..], i);
      done := done + Step(text, from).0;
    }
    result := out[..];
    forall k: nat | k < |text|
      ensures result[k] == if InCode(text, 0, k) && text[k] != '\n' then ' ' else text[k]
    {
      ExactlyCodeIsMasked(text, k);
    }
  }

  // ---- What masking keeps ----

  /** Ranges come in order, start at a backtick, and end just before or just after one. */
  ghost predicate Proper(s: string, r: Range, from: nat) {
    && from <= r.start < r.end <= |s|
    && s[r.start] == '`' && (s[r.end - 1] == '`' || (r.end < |s| && s[r.end] == '`'))
  }

  ghost predicate ProperRanges(s: string, rs: seq<Range>, from: nat) {
    && (forall a | 0 <= a < |rs| :: Proper(s, rs[a], from))
    && (forall a, b | 0 <= a < b < |rs| :: rs[a].end <= rs[b].start)
  }

  lemma StepIsProper(s: string, i: nat)
    requires i < |s|
    ensures forall r | r in Step(s, i).0 :: Proper(s, r, i) && r.end <= Step(s, i).1
  {
  }

  lemma PrependRange(s: string, head: seq<Range>, rest: seq<Range>, from: nat, next: nat)
    requires from <= next && |head| <= 1 && forall r | r in head :: Proper(s, r, from) && r.end <= next
    requires ProperRanges(s, rest, next)
    ensures ProperRanges(s, head + rest, from)
  {
  }

  lemma {:induction false} RangesAreProper(s: string, i: nat)
    requires i <= |s|
    ensures ProperRanges(s, Ranges(s, i), i)
    decreases |s| - i
  {
    if i < |s| {
      StepIsProper(s, i);
      RangesAreProper(s, Step(s, i).1);
      PrependRange(s, Step(s, i).0, Ranges(s, Step(s, i).1), i, Step(s, i).1);
    }
  }

  lemma MaskRangeKeepsValid(s: string, r: Range)
    requires Valid(s) && r.start <= r.end <= |s| && Boundary(s, r.start) && Boundary(s, r.end)
    ensures Valid(MaskRange(s, r))
  {
    ValidSplit(s, r.start);
    ValidSplit(s, r.end);
    AsciiIsValid(Blank(s[r.start..r.end]));
    ValidConcat(s[..r.start], Blank(s[r.start..r.end]));
    ValidConcat(s[..r.start] + Blank(s[r.start..r.end]), s[r.end..]);
  }

  lemma RangeEndsAreBoundaries(m: string, r: Range)
    requires Valid(m) && Proper(m, r, 0)
    ensures Boundary(m, r.start) && Boundary(m, r.end)
  {
    if m[r.end - 1] == '`' {
      BoundaryAfterAscii(m, r.end - 1);
    }
  }

  lemma MaskLastKeepsValid(s: string, front: seq<Range>, r: Range)
    requires ProperRanges(s, front + [r], 0) && Valid(Masked(s, front))
    ensures Valid(Masked(s, front + [r]))
  {
    var rs, m := front + [r], Masked(s, front);
    assert rs[|rs| - 1] == r && Proper(s, r, 0);
    assert forall q | q in front :: q.end <= r.start by {
      assert forall a | 0 <= a < |front| :: front[a] == rs[a];
    }
    assert forall k | r.start <= k < |s| :: m[k] == s[k];
    RangeEndsAreBoundaries(m, r);
    MaskRangeKeepsValid(m, r);
    MaskedAppend(s, front, [r]);
    MaskedOne(m, r);
  }

  /** Masking range after range keeps the text valid. */
  lemma {:induction false} MaskedKeepsValid(s: string, rs: seq<Range>)
    requires Valid(s) && ProperRanges(s, rs, 0)
    ensures Valid(Masked(s, rs))
  {
    if rs == [] {
      MaskedNone(s);
    } else {
      var front, r := rs[..|rs| - 1], rs[|rs| - 1];
      MaskedKeepsValid(s, front);
      assert rs == front + [r];
      MaskLastKeepsValid(s, front, r);
    }
  }

  /** Masking turns valid UTF-8 into valid UTF-8 of the same length, so what the scanners see is a text
      in which every byte is the original or a space and every line break is where it was. */
  lemma MaskingIsSafe(text: string)
    requires Valid(text)
    ensures var m := Masked(text, Ranges(text, 0));
            && Valid(m) && |m| == |text|
            && forall k | 0 <= k < |text| :: (m[k] == text[k] || m[k] == ' ') && (text[k] == '\n' <==> m[k] == '\n')
  {
    RangesAreProper(text, 0);
    MaskedKeepsValid(text, Ranges(text, 0));
  }

  /** A masked text, seen from one position: a byte that is not a space is the original byte. */
  ghost predicate Shows(text: string, m: string, k: nat) {
    |m| == |text| && (k < |text| && m[k] != ' ' ==> m[k] == text[k])
  }

  lemma MaskedShows(text: string, rs: seq<Range>, k: nat)
    ensures Shows(text, Masked(text, rs), k)
  {
  }

  lemma StartSurvives(text: string, m: string, start: nat)
    requires Shows(text, m, start) && start < |text| && m[start] != ' ' && Boundary(m, start)
    ensures Boundary(text, start)
  {
  }

  lemma CoveredEndSurvives(text: string, rs: seq<Range>, r: Range, end: nat)
    requires Valid(text) && Proper(text, r, 0) && r in rs && r.start <= end < r.end && 0 < end
    requires Masked(text, rs)[end - 1] != ' '
    ensures Boundary(text, end)
  {
    if r.start < end {
      assert Covered(rs, end - 1);
      assert text[end - 1] == '\n';
      BoundaryAfterAscii(text, end - 1);
    }
  }

  lemma EndSurvives(text: string, rs: seq<Range>, end: nat)
    requires Valid(text) && ProperRanges(text, rs, 0) && 0 < end < |text|
    requires Masked(text, rs)[end - 1] != ' ' && Boundary(Masked(text, rs), end)
    ensures Boundary(text, end)
  {
    if Covered(rs, end) {
      var r :| r in rs && r.start <= end < r.end;
      var a :| 0 <= a < |rs| && rs[a] == r;
      CoveredEndSurvives(text, rs, r, end);
    }
  }

  /** Offsets of a span whose first and last bytes are not spaces are character boundaries of the
      original text whenever they are of the masked one, so the original can be sliced there. */
  lemma SpanSurvivesMasking(text: string, start: nat, end: nat)
    requires Valid(text) && start < end <= |text|
    requires var m := Masked(text, Ranges(text, 0));
             m[start] != ' ' && m[end - 1] != ' ' && Boundary(m, start) && Boundary(m, end)
    ensures Boundary(text, start) && Boundary(text, end)
  {
    var rs := Ranges(text, 0);
    MaskedShows(text, rs, start);
    StartSurvives(text, Masked(text, rs), start);
    if end < |text| {
      RangesAreProper(text, 0);
      EndSurvives(text, rs, end);
    }
  }

  /** A masked fence ends in front of its closing marks, and the next range starts behind them. */
  ghost predicate FencesClose(s: string, rs: seq<Range>) {
    forall a | 0 <= a < |rs| && FenceAt(s, rs[a].start) ::
      FenceAt(s, rs[a].end) && forall b | a < b < |rs| :: rs[a].end + 3 <= rs[b].start
  }

  lemma StepCloses(s: string, i: nat)
    requires i < |s|
    ensures forall r | r in Step(s, i).0 && FenceAt(s, r.start) :: FenceAt(s, r.end) && r.end + 3 <= Step(s, i).1
  {
  }

  lemma PrependCloses(s: string, head: seq<Range>, rest: seq<Range>, next: nat)
    requires |head| <= 1 && forall r | r in head && FenceAt(s, r.start) :: FenceAt(s, r.end) && r.end + 3 <= next
    requires ProperRanges(s, rest, next) && FencesClose(s, rest)
    ensures FencesClose(s, head + rest)
  {
    var rs := head + rest;
    forall a | 0 <= a < |rs| && FenceAt(s, rs[a].start)
      ensures FenceAt(s, rs[a].end) && forall b | a < b < |rs| :: rs[a].end + 3 <= rs[b].start
    {
      if a < |head| {
        assert rs[a] in head;
        assert forall b | |head| <= b < |rs| :: rs[b] == rest[b - |head|] && Proper(s, rest[b - |head|], next);
      } else {
        assert rs[a] == rest[a - |head|];
        assert forall b | a < b < |rs| :: rs[b] == rest[b - |head|];
      }
    }
  }

  lemma {:induction false} RangesClose(s: string, i: nat)
    requires i <= |s|
    ensures FencesClose(s, Ranges(s, i))
    decreases |s| - i
  {
    if i < |s| {
      var next := Step(s, i).1;
      StepCloses(s, i);
      RangesAreProper(s, next);
      RangesClose(s, next);
      PrependCloses(s, Step(s, i).0, Ranges(s, next), next);
    }
  }

  lemma MarksAreUncovered(s: string, rs: seq<Range>, a: nat, k: nat)
    requires ProperRanges(s, rs, 0) && FencesClose(s, rs) && a < |rs| && FenceAt(s, rs[a].start)
    requires rs[a].end <= k < rs[a].end + 3
    ensures !Covered(rs, k)
  {
    forall q | q in rs
      ensures !(q.start <= k < q.end)
    {
      var b :| 0 <= b < |rs| && rs[b] == q;
      assert Proper(s, rs[a], 0);
      if b < a {
        assert rs[b].end <= rs[a].start;
      } else if b > a {
        assert rs[a].end + 3 <= rs[b].start;
      }
    }
  }

  lemma ThreeTicks(m: string, j: nat)
    requires FenceAt(m, j)
    ensures m[j..j + 3] == "```"
  {
    var marks := m[j..j + 3];
    assert marks[0] == '`' && marks[1] == '`' && marks[2] == '`';
  }

  lemma UncoveredFenceStays(s: string, rs: seq<Range>, j: nat)
    requires FenceAt(s, j) && !Covered(rs, j) && !Covered(rs, j + 1) && !Covered(rs, j + 2)
    ensures FenceAt(Masked(s, rs), j)
  {
  }

  lemma FenceStays(s: string, rs: seq<Range>, r: Range)
    requires ProperRanges(s, rs, 0) && FencesClose(s, rs) && r in rs && FenceAt(s, r.start)
    ensures FenceAt(Masked(s, rs), r.end)
  {
    var a :| 0 <= a < |rs| && rs[a] == r;
    MarksAreUncovered(s, rs, a, r.end);
    MarksAreUncovered(s, rs, a, r.end + 1);
    MarksAreUncovered(s, rs, a, r.end + 2);
    UncoveredFenceStays(s, rs, r.end);
  }

  /** The closing marks of every masked fence stay in the masked text; only the opening ones are blanked. */
  lemma ClosingFenceStays(text: string, rs: seq<Range>, m: string, r: Range)
    requires rs == Ranges(text, 0) && m == Masked(text, rs) && r in rs && FenceAt(text, r.start)
    ensures r.end + 3 <= |m| && m[r.end..r.end + 3] == "```"
  {
    RangesAreProper(text, 0);
    RangesClose(text, 0);
    FenceStays(text, rs, r);
    ThreeTicks(m, r.end);
  }

  lemma RangesNeedBackticks(s: string, rs: seq<Range>)
    requires ProperRanges(s, rs, 0)
    ensures rs != [] ==> '`' in s
  {
    if rs != [] {
      assert Proper(s, rs[0], 0);
      assert s[rs[0].start] in s;
    }
  }

  /** Nothing but backticks opens a fence: a text without any is shown as it is, tildes or not. */
  lemma NoBacktickNoMask(text: string)
    requires '`' !in text
    ensures Masked(text, Ranges(text, 0)) == text
  {
    RangesAreProper(text, 0);
    RangesNeedBackticks(text, Ranges(text, 0));
    MaskedNone(text);
  }
}
