/** The memory-mapped ring buffer that survives crashes (crash_buffer.rs).

    Bytes 0..8 hold the write offset, little-endian; the rest is a ring. What the file
    stands for is its window: the ring read from the offset around to the offset. */
module CrashBuffer {
  import opened Text

  const HEADER_SIZE: nat := 8
  const MIN_SIZE: nat := 4096

  // ---- Little-endian header ----

  function DecodeLe(s: string): nat {
    if s == [] then 0 else s[0] as int + 256 * DecodeLe(s[1..])
  }

  function EncodeLe(v: nat, k: nat): (s: string)
    ensures |s| == k
  {
    if k == 0 then [] else [(v % 256) as char] + EncodeLe(v / 256, k - 1)
  }

  function Pow256(k: nat): nat {
    if k == 0 then 1 else 256 * Pow256(k - 1)
  }

  /** The first byte weighs least: the bytes behind a part weigh 256 times more for each byte of it. */
  lemma {:induction false} LeWeights(a: string, b: string, c: char)
    ensures DecodeLe(a + b) == DecodeLe(a) + Pow256(|a|) * DecodeLe(b) && DecodeLe([c]) == c as nat
  {
    if a == [] {
      assert a + b == b;
    } else {
      LeWeights(a[1..], b, c);
      assert (a + b)[1..] == a[1..] + b;
      assert 256 * (Pow256(|a| - 1) * DecodeLe(b)) == 256 * Pow256(|a| - 1) * DecodeLe(b);
    }
  }

  lemma {:induction false} LeRoundTrip(v: nat, k: nat)
    requires v < Pow256(k)
    ensures DecodeLe(EncodeLe(v, k)) == v
  {
    if k > 0 {
      LeRoundTrip(v / 256, k - 1);
      assert EncodeLe(v, k)[1..] == EncodeLe(v / 256, k - 1);
    }
  }

  // ---- The ring, one byte store at a time ----

  /** A window with bytes written over it from its start on, around and around. */
  function Overwritten(window: string, data: string): (r: string)
    requires window != []
    ensures |r| == |window|
    decreases |data|
  {
    if |data| <= |window| then data + window[|data|..]
    else Overwritten(data[..|window|], data[|window|..])
  }

  /** A ring and the position of the next store in it. */
  datatype Cursor = Cursor(ring: string, pos: nat) {
    ghost predicate Valid() {
      pos < |ring|
    }

    /** The ring in reading order: from pos to the end, then from the start to pos. */
    function Window(): (w: string)
      requires Valid()
      ensures |w| == |ring|
    {
      ring[pos..] + ring[..pos]
    }

    function Store(b: char): (c: Cursor)
      requires Valid()
      ensures c.Valid() && |c.ring| == |ring|
    {
      Cursor(ring[pos := b], if pos + 1 == |ring| then 0 else pos + 1)
    }

    function StoreAll(data: string): (c: Cursor)
      requires Valid()
      ensures c.Valid() && |c.ring| == |ring|
    {
      if data == [] then this
      else StoreAll(data[..|data| - 1]).Store(data[|data| - 1])
    }

    lemma StoreShiftsWindow(b: char)
      requires Valid()
      ensures Store(b).Window() == Window()[1..] + [b]
    {
    }

    lemma SnocConcat(s: string, data: string)
      requires data != []
      ensures s + data == s + data[..|data| - 1] + [data[|data| - 1]]
    {
    }

    lemma {:induction false} StoreAllShiftsWindow(data: string)
      requires Valid()
      ensures StoreAll(data).Window() == Last(|ring|, Window() + data)
    {
      if data == [] {
        assert Window() + data == Window();
      } else {
        var front, b := data[..|data| - 1], data[|data| - 1];
        var c := StoreAll(front);
        StoreAllShiftsWindow(front);
        c.StoreShiftsWindow(b);
        LastSlides(|ring|, Window() + front, b);
        SnocConcat(Window(), data);
      }
    }

    function Wrapped(k: nat): (p: nat)
      requires Valid() && k <= |ring|
      ensures k < |ring| ==> p < |ring|
    {
      if pos + k < |ring| then pos + k else pos + k - |ring|
    }

    lemma PrefixGrows(front: string, b: char)
      requires Valid() && |front| < |ring|
      ensures (front + Window()[|front|..])[|front| := b] == front + [b] + Window()[|front| + 1..]
    {
    }

    lemma StoreIntoWindow(k: nat, b: char)
      requires Valid() && k < |ring|
      ensures Cursor(ring[Wrapped(k) := b], pos).Window() == Window()[k := b]
    {
    }

    /** Before the header moves, the old offset still reads the bytes stored so far first,
        then the old window without as many of its oldest bytes. */
    lemma {:induction false} UnmovedOffsetAfterStores(data: string)
      requires Valid() && |data| <= |ring|
      ensures Cursor(StoreAll(data).ring, pos).Window() == data + Window()[|data|..]
      ensures StoreAll(data).pos == Wrapped(|data|)
    {
      if data == [] {
        assert data + Window()[0..] == Window();
      } else {
        var front, b := data[..|data| - 1], data[|data| - 1];
        UnmovedOffsetAfterStores(front);
        Cursor(StoreAll(front).ring, pos).StoreIntoWindow(|front|, b);
        PrefixGrows(front, b);
        assert front + [b] == data;
      }
    }

    lemma {:induction false} StoreAllConcat(a: string, b: string)
      requires Valid()
      ensures StoreAll(a + b) == StoreAll(a).StoreAll(b)
      decreases |b|
    {
      if b == [] {
        assert a + b == a;
      } else {
        var front, last := b[..|b| - 1], b[|b| - 1];
        StoreAllConcat(a, front);
        assert (a + b)[..|a + b| - 1] == a + front;
      }
    }

    /** The same for any number of bytes, several times around the ring included. */
    lemma {:induction false} UnmovedOffsetReads(data: string)
      requires Valid()
      ensures Cursor(StoreAll(data).ring, pos).Window() == Overwritten(Window(), data)
      decreases |data|
    {
      if |data| <= |ring| {
        UnmovedOffsetAfterStores(data);
      } else {
        var round, rest := data[..|ring|], data[|ring|..];
        var c := StoreAll(round);
        UnmovedOffsetAfterStores(round);
        assert c.pos == pos && c.Window() == round + Window()[|ring|..] == round;
        c.UnmovedOffsetReads(rest);
        StoreAllConcat(round, rest);
        assert round + rest == data;
      }
    }
  }

  /** Once the ring has been filled, nothing of what it held before can be read. */
  lemma FullRoundErasesAll(v: string, w: string, data: string)
    requires |v| == |w| > 0 && |data| >= |v|
    ensures Overwritten(v, data) == Overwritten(w, data)
  {
  }

  /** A file cut or zero-extended to a length. */
  function Resized(file: string, n: nat): (r: string)
    ensures |r| == n && forall k | 0 <= k < n :: r[k] == if k < |file| then file[k] else '\0'
  {
    if |file| >= n then file[..n] else file + Zeros(n - |file|)
  }

  /** What a file stands for; an offset outside the ring counts as zero. */
  function WindowOf(file: string): (w: string)
    requires |file| > HEADER_SIZE
    ensures |w| == |file| - HEADER_SIZE
  {
    var offset := DecodeLe(file[..HEADER_SIZE]);
    Cursor(file[HEADER_SIZE..], if offset < |file| - HEADER_SIZE then offset else 0).Window()
  }

  /** A file whose offset is lost reads from the start of its ring. */
  lemma LostOffsetReads(header: string, ring: string)
    requires |header| == HEADER_SIZE && ring != [] && DecodeLe(header) >= |ring|
    ensures WindowOf(header + ring) == ring
  {
    assert (header + ring)[..HEADER_SIZE] == header && (header + ring)[HEADER_SIZE..] == ring;
  }

  lemma ZerosReadAsZeros(n: nat)
    requires n > HEADER_SIZE
    ensures WindowOf(Zeros(n)) == Zeros(n - HEADER_SIZE)
  {
    assert Zeros(n)[HEADER_SIZE..] == Zeros(n - HEADER_SIZE);
    assert forall k | 0 <= k < n - HEADER_SIZE :: WindowOf(Zeros(n))[k] == '\0';
  }

  /** A new file reads as zeros; a file of the right size reads exactly as it was left. */
  lemma OpenedReads(file: string, n: nat)
    requires n > HEADER_SIZE
    ensures file == "" ==> WindowOf(Resized(file, n)) == Zeros(n - HEADER_SIZE)
    ensures |file| == n ==> WindowOf(Resized(file, n)) == WindowOf(file)
  {
    ZerosReadAsZeros(n);
    if file == "" {
      assert Resized(file, n) == Zeros(n);
    } else if |file| == n {
      assert Resized(file, n) == file;
    }
  }

  lemma WrapsAt(p: nat, size: nat)
    requires p <= size && size > 0
    ensures p % size == if p == size then 0 else p
  {
    if p == size {
      assert p == 1 * size + 0;
    } else {
      assert p == 0 * size + p;
    }
  }

  class CrashBuffer {
    const mmap: array<char>

    ghost predicate Valid()
      reads this
    {
      MIN_SIZE <= mmap.Length < Pow256(8)
    }

    ghost function RingSize(): nat
      requires Valid()
      reads this
    {
      mmap.Length - HEADER_SIZE
    }

    ghost function Offset(): nat
      requires Valid()
      reads this, mmap
    {
      DecodeLe(mmap[..HEADER_SIZE])
    }

    /** An offset outside the ring counts as zero, for writers and for readers. */
    ghost function State(): (c: Cursor)
      requires Valid()
      reads this, mmap
      ensures c.Valid() && |c.ring| == RingSize()
    {
      Cursor(mmap[HEADER_SIZE..], if Offset() < RingSize() then Offset() else 0)
    }

    ghost function Window(): (w: string)
      requires Valid()
      reads this, mmap
      ensures |w| == RingSize()
    {
      State().Window()
    }

    /** Maps a file, new (no bytes) or left by an earlier process, cut or zero-extended to the requested
        size, at least 4 KB. */
    constructor Open(file: string, size: nat)
      requires size < Pow256(8)
      ensures Valid() && fresh(mmap)
      ensures mmap.Length == if size < MIN_SIZE then MIN_SIZE else size
      ensures mmap[..] == Resized(file, mmap.Length)
    {
      assert Pow256(8) == 0x1_0000_0000_0000_0000;
      var bytes := Resized(file, if size < MIN_SIZE then MIN_SIZE else size);
      mmap := new char[|bytes|](i requires 0 <= i < |bytes| => bytes[i]);
      new;
      assert mmap[..] == bytes;
    }

    lemma WindowIsOfFile()
      requires Valid()
      ensures Window() == WindowOf(mmap[..])
    {
      assert mmap[..][..HEADER_SIZE] == mmap[..HEADER_SIZE] && mmap[..][HEADER_SIZE..] == mmap[HEADER_SIZE..];
    }

    /** Stores bytes[done..done + n] at pos without wrapping. */
    method CopyChunk(bytes: string, done: nat, pos: nat, n: nat, ghost start: Cursor)
      requires Valid() && done + n <= |bytes| && pos + n <= RingSize() && pos < RingSize()
      requires start.Valid() && start.StoreAll(bytes[..done]) == Cursor(mmap[HEADER_SIZE..], pos)
      modifies mmap
      ensures mmap[..HEADER_SIZE] == old(mmap[..HEADER_SIZE])
      ensures start.StoreAll(bytes[..done + n])
           == Cursor(mmap[HEADER_SIZE..], if pos + n == RingSize() then 0 else pos + n)
    {
      for k := 0 to n
        invariant mmap[..HEADER_SIZE] == old(mmap[..HEADER_SIZE])
        invariant start.StoreAll(bytes[..done + k])
               == Cursor(mmap[HEADER_SIZE..], if pos + k == RingSize() then 0 else pos + k)
      {
        ghost var ring := mmap[HEADER_SIZE..];
        assert bytes[..done + k + 1][..done + k] == bytes[..done + k];
        mmap[HEADER_SIZE + pos + k] := bytes[done + k];
        assert mmap[HEADER_SIZE..] == ring[pos + k := bytes[done + k]];
      }
    }

    /** The copy loop of a write, chunk by chunk; `stop` is how many bytes get stored before the
        process dies, or all of them. The header is not touched. */
    method CopyIn(bytes: string, offset: nat, stop: nat) returns (pos: nat)
      requires Valid() && offset < RingSize() && stop <= |bytes|
      modifies mmap
      ensures mmap[..HEADER_SIZE] == old(mmap[..HEADER_SIZE])
      ensures var c := Cursor(old(mmap[HEADER_SIZE..]), offset).StoreAll(bytes[..stop]);
              mmap[HEADER_SIZE..] == c.ring && pos == c.pos
    {
      ghost var start := Cursor(mmap[HEADER_SIZE..], offset);
      var ringSize := mmap.Length - HEADER_SIZE;
      var done := 0;
      pos := offset;
      while done < stop
        invariant 0 <= done <= stop && pos < ringSize
        invariant mmap[..HEADER_SIZE] == old(mmap[..HEADER_SIZE])
        invariant start.StoreAll(bytes[..done]) == Cursor(mmap[HEADER_SIZE..], pos)
      {
        var space := ringSize - pos;
        var chunk := if |bytes| - done < space then |bytes| - done else space;
        var n := if stop - done < chunk then stop - done else chunk;
        CopyChunk(bytes, done, pos, n, start);
        done := done + n;
        WrapsAt(pos + n, ringSize);
        pos := (pos + n) % ringSize;
      }
    }

    method ReadHeader() returns (v: nat)
      requires Valid()
      ensures v == Offset()
    {
      v := DecodeLe(mmap[..HEADER_SIZE]);
    }

    method WriteHeader(v: nat)
      requires Valid() && v < RingSize()
      modifies mmap
      ensures Offset() == v && mmap[HEADER_SIZE..] == old(mmap[HEADER_SIZE..])
    {
      var le := EncodeLe(v, HEADER_SIZE);
      for k := 0 to HEADER_SIZE
        invariant mmap[..k] == le[..k] && mmap[HEADER_SIZE..] == old(mmap[HEADER_SIZE..])
      {
        mmap[k] := le[k];
      }
      LeRoundTrip(v, HEADER_SIZE);
      assert mmap[..HEADER_SIZE] == le;
    }

    /** Appends line and a newline: the window becomes the last ring-size bytes of what it was
        followed by the line. Holds from every state, a damaged header included. */
    method WriteLine(line: string)
      requires Valid()
      modifies mmap
      ensures Window() == Last(RingSize(), old(Window()) + line + "\n")
    {
      var bytes := line + "\n";
      var offset := ReadHeader();
      if offset >= mmap.Length - HEADER_SIZE {
        offset := 0;
      }
      ghost var before := State();
      var pos := CopyIn(bytes, offset, |bytes|);
      assert bytes[..|bytes|] == bytes;
      WriteHeader(pos);
      before.StoreAllShiftsWindow(bytes);
      assert State() == before.StoreAll(bytes);
      assert old(Window()) + line + "\n" == old(Window()) + bytes;
    }

    /** A write of which only the first w bytes reach the ring before the process dies. */
    method DieDuringWrite(line: string, w: nat)
      requires Valid() && w <= |line| + 1
      modifies mmap
      ensures Offset() == old(Offset())
      ensures Window() == Overwritten(old(Window()), (line + "\n")[..w])
      ensures w <= RingSize() ==> Window() == (line + "\n")[..w] + old(Window())[w..]
    {
      var bytes := line + "\n";
      var offset := ReadHeader();
      if offset >= mmap.Length - HEADER_SIZE {
        offset := 0;
      }
      ghost var before := State();
      var _ := CopyIn(bytes, offset, w);
      before.UnmovedOffsetReads(bytes[..w]);
    }

    /** Everything in reading order, without leading and trailing NUL bytes. */
    method ReadContents() returns (contents: string)
      requires Valid()
      ensures contents == TrimNul(Window())
    {
      var offset := ReadHeader();
      var ring := mmap[HEADER_SIZE..];
      if offset > |ring| {
        offset := |ring|;
      }
      var result := ring[offset..] + ring[..offset];
      assert result == Window();
      contents := TrimNul(result);
    }
  }

  // ---- Whole runs ----

  /** What a window becomes when lines are written one after the other. */
  ghost function WindowAfter(w: string, lines: seq<string>): (r: string)
    ensures |r| == |w|
  {
    if lines == [] then w
    else Last(|w|, WindowAfter(w, lines[..|lines| - 1]) + lines[|lines| - 1] + "\n")
  }

  lemma WindowAfterSnoc(w: string, lines: seq<string>, line: string)
    ensures WindowAfter(w, lines + [line]) == Last(|w|, WindowAfter(w, lines) + line + "\n")
  {
    assert (lines + [line])[..|lines|] == lines;
  }

  function Joined(lines: seq<string>): string {
    if lines == [] then [] else Joined(lines[..|lines| - 1]) + lines[|lines| - 1] + "\n"
  }

  lemma {:induction false} JoinedCons(line: string, rest: seq<string>)
    ensures Joined([line] + rest) == line + ['\n'] + Joined(rest)
  {
    var all := [line] + rest;
    if rest == [] {
      assert all[..0] == [];
    } else {
      assert all[..|all| - 1] == [line] + rest[..|rest| - 1];
      JoinedCons(line, rest[..|rest| - 1]);
    }
  }

  /** Any run of writes leaves the last |w| bytes of the old window and all bytes written since. */
  lemma {:induction false} RunRefinesHistory(w: string, lines: seq<string>)
    ensures WindowAfter(w, lines) == Last(|w|, w + Joined(lines))
  {
    if lines == [] {
      assert w + [] == w;
    } else {
      var front, line := lines[..|lines| - 1], lines[|lines| - 1] + "\n";
      RunRefinesHistory(w, front);
      LastOfLast(|w|, w + Joined(front), line);
      assert w + Joined(front) + line == w + Joined(lines);
      assert WindowAfter(w, front) + lines[|lines| - 1] + "\n" == WindowAfter(w, front) + line;
    }
  }

  lemma {:induction false} JoinedHasNoNul(lines: seq<string>)
    requires forall line | line in lines :: '\0' !in line
    ensures '\0' !in Joined(lines)
  {
    if lines != [] {
      JoinedHasNoNul(lines[..|lines| - 1]);
    }
  }

  lemma TrimOfLast(size: nat, all: string)
    requires '\0' !in all
    ensures TrimNul(Last(size, Zeros(size) + all)) == Last(size, all)
  {
    if |all| >= size {
      LastOfSuffix(size, Zeros(size), all);
      var kept := Last(size, all);
      assert forall c | c in kept :: c in all;
      if kept != [] {
        TrimKeeps(kept);
      }
    } else {
      assert Last(size, Zeros(size) + all) == Zeros(size - |all|) + all;
      TrimDropsZeros(size - |all|, all);
    }
  }

  /** From a new file, lines without NUL bytes read back as the last min(total, size) bytes written. */
  lemma FreshRunReadsBack(size: nat, lines: seq<string>)
    requires forall line | line in lines :: '\0' !in line
    ensures TrimNul(WindowAfter(Zeros(size), lines)) == Last(size, Joined(lines))
  {
    RunRefinesHistory(Zeros(size), lines);
    JoinedHasNoNul(lines);
    TrimOfLast(size, Joined(lines));
  }
}
