/** Byte strings and the few library routines on them that the modelled code calls.

    A text is a `string` indexed by byte: one `char` stands for one byte of its UTF-8 form. */
module Text {

  datatype Option<+T> = None | Some(value: T)

  function Zeros(n: nat): (s: string)
    ensures |s| == n && forall k | 0 <= k < n :: s[k] == '\0'
  {
    seq(n, _ => '\0')
  }

  /** The last n elements, or everything when there are fewer. */
  function Last(n: nat, s: string): (r: string)
    ensures |r| == if |s| <= n then |s| else n
  {
    if |s| <= n then s else s[|s| - n..]
  }

  lemma LastOfLast(n: nat, s: string, t: string)
    ensures Last(n, Last(n, s) + t) == Last(n, s + t)
  {
    if |s| > n {
      assert s + t == s[..|s| - n] + (Last(n, s) + t);
    }
  }

  lemma LastOfSuffix(n: nat, s: string, t: string)
    requires |t| >= n
    ensures Last(n, s + t) == Last(n, t)
  {
    assert (s + t)[|s|..] == t;
  }

  lemma LastSlides(n: nat, s: string, b: char)
    requires 0 < n <= |s|
    ensures Last(n, s + [b]) == Last(n, s)[1..] + [b]
  {
  }

  // ---- Trimming NUL bytes at both ends ----

  function TrimLeft(s: string): string {
    if s != [] && s[0] == '\0' then TrimLeft(s[1..]) else s
  }

  function TrimRight(s: string): string {
    if s != [] && s[|s| - 1] == '\0' then TrimRight(s[..|s| - 1]) else s
  }

  function TrimNul(s: string): string {
    TrimRight(TrimLeft(s))
  }

  lemma {:induction false} TrimDropsZeros(n: nat, s: string)
    requires s == [] || (s[0] != '\0' && s[|s| - 1] != '\0')
    ensures TrimNul(Zeros(n) + s) == s
  {
    if n == 0 {
      assert Zeros(0) + s == s;
    } else {
      assert (Zeros(n) + s)[1..] == Zeros(n - 1) + s;
      TrimDropsZeros(n - 1, s);
    }
  }

  lemma {:induction false} TrimRightDropsZeros(n: nat, s: string)
    requires s == [] || s[|s| - 1] != '\0'
    ensures TrimRight(s + Zeros(n)) == s
  {
    if n == 0 {
      assert s + Zeros(0) == s;
    } else {
      assert (s + Zeros(n))[..|s| + n - 1] == s + Zeros(n - 1);
      TrimRightDropsZeros(n - 1, s);
    }
  }

  /** Trimming removes the NUL bytes at both ends, and nothing else. */
  lemma {:induction false} TrimIsExact(a: nat, s: string, b: nat)
    requires s == [] || (s[0] != '\0' && s[|s| - 1] != '\0')
    ensures TrimNul(Zeros(a) + s + Zeros(b)) == s
  {
    var t := Zeros(a) + s + Zeros(b);
    if a == 0 {
      assert t == s + Zeros(b);
      if s == [] {
        assert t == Zeros(b) + [];
        TrimDropsZeros(b, []);
      } else {
        TrimRightDropsZeros(b, s);
      }
    } else {
      assert t[1..] == Zeros(a - 1) + s + Zeros(b);
      TrimIsExact(a - 1, s, b);
    }
  }

  lemma TrimKeeps(s: string)
    requires s != [] && s[0] != '\0' && s[|s| - 1] != '\0'
    ensures TrimNul(s) == s
  {
  }

  // ---- Splitting ----

  function Count(s: string, c: char): nat {
    if s == [] then 0 else (if s[0] == c then 1 else 0) + Count(s[1..], c)
  }

  lemma {:induction false} CountConcat(s: string, t: string, c: char)
    ensures Count(s + t, c) == Count(s, c) + Count(t, c)
  {
    if s == [] {
      assert s + t == t;
    } else {
      assert (s + t)[1..] == s[1..] + t;
      CountConcat(s[1..], t, c);
    }
  }

  lemma {:induction false} CountAbsent(s: string, c: char)
    requires c !in s
    ensures Count(s, c) == 0
  {
    if s != [] {
      CountAbsent(s[1..], c);
    }
  }

  /** The fields between occurrences of sep; a text without sep is one field. */
  function Split(s: string, sep: char): (fields: seq<string>)
    ensures |fields| == 1 + Count(s, sep)
  {
    if s == [] then [[]]
    else if s[0] == sep then [[]] + Split(s[1..], sep)
    else
      var rest := Split(s[1..], sep);
      [[s[0]] + rest[0]] + rest[1..]
  }

  lemma {:induction false} SplitField(a: string, sep: char, rest: string)
    requires sep !in a
    ensures Split(a + ([sep] + rest), sep) == [a] + Split(rest, sep)
  {
    var s := a + ([sep] + rest);
    if a == [] {
      assert s[1..] == rest;
    } else {
      SplitField(a[1..], sep, rest);
      assert s[1..] == a[1..] + ([sep] + rest);
      assert [a[0]] + a[1..] == a;
    }
  }

  lemma {:induction false} SplitLastField(a: string, sep: char)
    requires sep !in a
    ensures Split(a, sep) == [a]
  {
    if a != [] {
      SplitLastField(a[1..], sep);
      assert [a[0]] + a[1..] == a;
    }
  }

  /** The first field, and what the other fields are the fields of. */
  lemma {:induction false} SplitHead(s: string, sep: char) returns (rest: string)
    ensures sep !in Split(s, sep)[0]
    ensures |Split(s, sep)| == 1 ==> s == Split(s, sep)[0]
    ensures |Split(s, sep)| > 1 ==>
              s == Split(s, sep)[0] + ([sep] + rest) && Split(rest, sep) == Split(s, sep)[1..]
  {
    if s == [] {
      rest := [];
    } else if s[0] == sep {
      rest := s[1..];
      assert s == [] + ([sep] + rest);
    } else {
      rest := SplitHead(s[1..], sep);
      var head := Split(s[1..], sep)[0];
      assert s == [s[0]] + s[1..];
      assert [s[0]] + head + ([sep] + rest) == [s[0]] + (head + ([sep] + rest));
    }
  }

  /** Two field lists whose inner ends meet in one field. */
  function Spliced(f: seq<string>, g: seq<string>): (r: seq<string>)
    requires f != [] && g != []
    ensures |r| == |f| + |g| - 1
    ensures forall i | 0 <= i < |f| - 1 :: r[i] == f[i]
    ensures forall i | |f| <= i < |r| :: r[i] == g[i - |f| + 1]
  {
    f[..|f| - 1] + [f[|f| - 1] + g[0]] + g[1..]
  }

  lemma SplicedEmpty(empty: string, g: seq<string>)
    requires empty == "" && g != []
    ensures Spliced([empty], g) == g
  {
    assert empty + g[0] == g[0];
    assert g == [g[0]] + g[1..];
  }

  lemma SplicedAfterField(field: string, f: seq<string>, g: seq<string>)
    requires f != [] && g != []
    ensures Spliced([field] + f, g) == [field] + Spliced(f, g)
  {
    var h := [field] + f;
    assert h[..|h| - 1] == [field] + f[..|f| - 1];
  }

  lemma SplicedAfterChar(c: char, f: seq<string>, g: seq<string>)
    requires f != [] && g != []
    ensures Spliced([[c] + f[0]] + f[1..], g) == [[c] + Spliced(f, g)[0]] + Spliced(f, g)[1..]
  {
    if |f| == 1 {
      assert [c] + (f[0] + g[0]) == [c] + f[0] + g[0];
    } else {
      var h := [[c] + f[0]] + f[1..];
      assert h[..|h| - 1] == [[c] + f[0]] + f[1..|f| - 1];
      assert f[..|f| - 1][1..] == f[1..|f| - 1];
    }
  }

  /** Splitting a joined text. */
  lemma {:induction false} SplitConcat(a: string, b: string, sep: char)
    ensures Split(a + b, sep) == Spliced(Split(a, sep), Split(b, sep))
  {
    if a == [] {
      assert a + b == b;
      SplicedEmpty("", Split(b, sep));
    } else {
      assert (a + b)[1..] == a[1..] + b;
      SplitConcat(a[1..], b, sep);
      SplicedAfterField("", Split(a[1..], sep), Split(b, sep));
      SplicedAfterChar(a[0], Split(a[1..], sep), Split(b, sep));
    }
  }

  /** Leftmost occurrence of pat in s at or after position k. */
  function FindFrom(s: string, pat: string, k: nat): (r: Option<nat>)
    requires k <= |s|
    ensures r.Some? ==> k <= r.value && r.value + |pat| <= |s| && s[r.value..r.value + |pat|] == pat
    decreases |s| - k
  {
    if k + |pat| > |s| then None
    else if s[k..k + |pat|] == pat then Some(k)
    else if k == |s| then None
    else FindFrom(s, pat, k + 1)
  }

  /** An occurrence is never missed, and none before the one found. */
  lemma {:induction false} FindFromFinds(s: string, pat: string, k: nat, pos: nat)
    requires k <= pos && pos + |pat| <= |s| && s[pos..pos + |pat|] == pat
    ensures FindFrom(s, pat, k).Some? && FindFrom(s, pat, k).value <= pos
    decreases pos - k
  {
    if k < pos && s[k..k + |pat|] != pat {
      FindFromFinds(s, pat, k + 1, pos);
    }
  }

  // ---- Lines ----

  function StripReturn(s: string): string {
    if s != [] && s[|s| - 1] == '\r' then s[..|s| - 1] else s
  }

  function LinesFrom(s: string, pending: string): seq<string> {
    if s == [] then (if pending == [] then [] else [pending])
    else if s[0] == '\n' then [StripReturn(pending)] + LinesFrom(s[1..], [])
    else LinesFrom(s[1..], pending + [s[0]])
  }

  /** Newline-terminated pieces without their terminators; an empty last piece is no line. */
  function Lines(s: string): seq<string> {
    LinesFrom(s, [])
  }

  lemma {:induction false} LinesFirst(pending: string, a: string, rest: string)
    requires '\n' !in a && '\r' !in a && '\r' !in pending
    ensures LinesFrom(a + ['\n'] + rest, pending) == [pending + a] + Lines(rest)
    decreases a
  {
    var s := a + ['\n'] + rest;
    if a == [] {
      assert s[1..] == rest;
      assert pending + a == pending;
    } else {
      assert s[1..] == a[1..] + ['\n'] + rest;
      LinesFirst(pending + [a[0]], a[1..], rest);
      assert pending + [a[0]] + a[1..] == pending + a;
    }
  }

  lemma {:induction false} LinesUpTo(pending: string, a: string, rest: string)
    requires '\n' !in a
    ensures LinesFrom(a + ['\n'] + rest, pending) == [StripReturn(pending + a)] + Lines(rest)
    ensures LinesFrom(a, pending) == if pending + a == [] then [] else [pending + a]
    decreases a
  {
    var s := a + ['\n'] + rest;
    if a == [] {
      assert s[1..] == rest;
      assert pending + a == pending;
    } else {
      assert s[1..] == a[1..] + ['\n'] + rest;
      LinesUpTo(pending + [a[0]], a[1..], rest);
      assert pending + [a[0]] + a[1..] == pending + a;
    }
  }

  /** A line ends before "\n" or "\r\n", and the end of the text ends the last one unless it is empty. */
  lemma LinesEnd(a: string, rest: string)
    requires '\n' !in a
    ensures Lines(a + "\r\n" + rest) == [a] + Lines(rest)
    ensures (a == [] || a[|a| - 1] != '\r') ==> Lines(a + "\n" + rest) == [a] + Lines(rest)
    ensures Lines(a) == if a == [] then [] else [a]
  {
    LinesUpTo([], a, rest);
    LinesUpTo([], a + ['\r'], rest);
    assert a + "\r\n" + rest == a + ['\r'] + ['\n'] + rest;
    assert [] + a == a && [] + (a + ['\r']) == a + ['\r'];
  }
}

/** Printing and parsing of decimal integers, as the integer types' Display and FromStr do. */
module Decimal {
  import opened Text

  function Digit(d: nat): (c: char)
    requires d < 10
    ensures '0' <= c <= '9'
  {
    '0' + d as char
  }

  function PrintNat(n: nat): string {
    if n < 10 then [Digit(n)] else PrintNat(n / 10) + [Digit(n % 10)]
  }

  function PrintInt(x: int): string {
    if x < 0 then "-" + PrintNat(-x) else PrintNat(x)
  }

  lemma {:induction false} PrintNatDigits(n: nat)
    ensures var s := PrintNat(n); |s| > 0 && '0' <= s[0] <= '9' && forall c | c in s :: '0' <= c <= '9'
  {
    if n >= 10 {
      PrintNatDigits(n / 10);
    }
  }

  lemma PrintIntChars(x: int)
    ensures forall c | c in PrintInt(x) :: c == '-' || '0' <= c <= '9'
  {
    PrintNatDigits(if x < 0 then -x else x);
  }

  function Pow10(n: nat): (p: nat)
    ensures p > 0
  {
    if n == 0 then 1 else 10 * Pow10(n - 1)
  }

  lemma {:induction false} PrintNatLength(n: nat, k: nat)
    requires k > 0
    ensures |PrintNat(n)| <= k <==> n < Pow10(k)
  {
    if n >= 10 && k > 1 {
      PrintNatLength(n / 10, k - 1);
    }
  }

  function ParseDigits(s: string): Option<nat> {
    if s == [] then None
    else
      var c := s[|s| - 1];
      if !('0' <= c <= '9') then None
      else
        var d := (c - '0') as nat;
        if |s| == 1 then Some(d)
        else match ParseDigits(s[..|s| - 1])
          case None => None
          case Some(n) => Some(10 * n + d)
  }

  /** An optional sign ('-' only for signed types), digits, and the result must fit lo..hi. */
  function ParseInt(s: string, signed: bool, lo: int, hi: int): Option<int> {
    var negative := signed && s != [] && s[0] == '-';
    var digits := if s != [] && (s[0] == '+' || negative) then s[1..] else s;
    match ParseDigits(digits)
    case None => None
    case Some(n) =>
      var magnitude: int := n;
      var x := if negative then -magnitude else magnitude;
      if lo <= x < hi then Some(x) else None
  }

  /** Only digits read as a number, each weighing ten times the next one. */
  lemma {:induction false} ParseDigitsIff(s: string)
    ensures ParseDigits(s).Some? <==> s != [] && forall k | 0 <= k < |s| :: '0' <= s[k] <= '9'
    ensures |s| > 1 && ParseDigits(s).Some? ==>
              && ParseDigits(s[..|s| - 1]).Some?
              && ParseDigits(s).value == 10 * ParseDigits(s[..|s| - 1]).value + (s[|s| - 1] - '0') as int
    ensures |s| == 1 && ParseDigits(s).Some? ==> ParseDigits(s).value == (s[0] - '0') as int
  {
    if |s| > 1 {
      var front := s[..|s| - 1];
      ParseDigitsIff(front);
      assert forall k | 0 <= k < |front| :: front[k] == s[k];
    }
  }

  lemma {:induction false} ParseDigitsOfPrint(n: nat)
    ensures ParseDigits(PrintNat(n)) == Some(n)
  {
    if n >= 10 {
      PrintNatDigits(n / 10);
      ParseDigitsOfPrint(n / 10);
      var s := PrintNat(n);
      assert s[..|s| - 1] == PrintNat(n / 10);
      assert s[|s| - 1] == Digit(n % 10);
    }
  }

  lemma ParseIntOfPrint(x: int, signed: bool, lo: int, hi: int)
    requires lo <= x < hi && (x >= 0 || signed)
    ensures ParseInt(PrintInt(x), signed, lo, hi) == Some(x)
  {
    var s := PrintInt(x);
    PrintNatDigits(if x < 0 then -x else x);
    if x < 0 {
      ParseDigitsOfPrint(-x);
      assert s[1..] == PrintNat(-x);
    } else {
      ParseDigitsOfPrint(x);
    }
  }
}
