/** Well-formed UTF-8, byte by byte (sections 3 and 4 of RFC 3629). */
module Utf8 {

  predicate Ascii(c: char) {
    c as int < 0x80
  }

  predicate Continuation(c: char) {
    0x80 <= c as int < 0xC0
  }

  /** Length of the well-formed character at the front, or zero. */
  function FirstLength(s: string): (n: nat)
    ensures n <= |s|
    ensures forall k | 1 <= k < n :: Continuation(s[k])
    ensures n > 0 ==> !Continuation(s[0])
  {
    if s == [] then 0
    else
      var b := s[0] as int;
      if b < 0x80 then 1
      else if |s| >= 2 && 0xC2 <= b <= 0xDF && Continuation(s[1]) then 2
      else if |s| >= 3 && 0xE0 <= b <= 0xEF && Continuation(s[1]) && Continuation(s[2])
              && (b == 0xE0 ==> s[1] as int >= 0xA0) && (b == 0xED ==> s[1] as int <= 0x9F) then 3
      else if |s| >= 4 && 0xF0 <= b <= 0xF4 && Continuation(s[1]) && Continuation(s[2]) && Continuation(s[3])
              && (b == 0xF0 ==> s[1] as int >= 0x90) && (b == 0xF4 ==> s[1] as int <= 0x8F) then 4
      else 0
  }

  predicate Valid(s: string) {
    s == [] || (FirstLength(s) > 0 && Valid(s[FirstLength(s)..]))
  }

  /** Where slicing and in-place replacement do not panic. */
  predicate Boundary(s: string, k: nat) {
    k == 0 || k == |s| || (k < |s| && !Continuation(s[k]))
  }

  lemma FirstLengthOfPrefix(a: string, b: string)
    requires FirstLength(a) > 0
    ensures FirstLength(a + b) == FirstLength(a)
  {
  }

  lemma FirstLengthWithin(s: string, k: nat)
    requires FirstLength(s) <= k <= |s|
    ensures FirstLength(s[..k]) == FirstLength(s)
  {
  }

  lemma {:induction false} ValidConcat(a: string, b: string)
    requires Valid(a) && Valid(b)
    ensures Valid(a + b)
  {
    if a == [] {
      assert a + b == b;
    } else {
      var n := FirstLength(a);
      ValidConcat(a[n..], b);
      FirstLengthOfPrefix(a, b);
      assert (a + b)[n..] == a[n..] + b;
    }
  }

  lemma BoundaryPastFirst(s: string, k: nat)
    requires 0 < k < |s| && !Continuation(s[k])
    ensures FirstLength(s) <= k
  {
  }

  lemma {:induction false} ValidSplit(s: string, k: nat)
    requires Valid(s) && k <= |s| && Boundary(s, k)
    ensures Valid(s[..k]) && Valid(s[k..])
  {
    if k == 0 {
      assert s[0..] == s;
    } else if k == |s| {
      assert s[..k] == s;
    } else {
      var n := FirstLength(s);
      BoundaryPastFirst(s, k);
      var t := s[n..];
      assert k < |s| && (k > n ==> t[k - n] == s[k]);
      ValidSplit(t, k - n);
      assert t[k - n..] == s[k..];
      assert s[..k][n..] == t[..k - n];
      FirstLengthWithin(s, k);
    }
  }

  lemma BoundaryAfterAscii(s: string, k: nat)
    requires Valid(s) && k < |s| && Ascii(s[k])
    ensures Boundary(s, k) && Boundary(s, k + 1)
  {
    ValidSplit(s, k);
    var t := s[k..];
    assert FirstLength(t) == 1;
    if k + 1 < |s| {
      assert t[1..][0] == s[k + 1];
      assert FirstLength(t[1..]) > 0;
    }
  }

  lemma {:induction false} AsciiIsValid(s: string)
    requires forall k | 0 <= k < |s| :: Ascii(s[k])
    ensures Valid(s)
  {
    if s != [] {
      AsciiIsValid(s[1..]);
    }
  }

  // ---- Encoding ----

  function Tail(v: nat): (c: char)
    ensures Continuation(c)
  {
    (0x80 + v % 0x40) as char
  }

  /** The bytes of a Unicode scalar value. */
  function EncodeChar(c: char): string {
    var v := c as int;
    if v < 0x80 then [c]
    else if v < 0x800 then [(0xC0 + v / 0x40) as char, Tail(v)]
    else if v < 0x1_0000 then [(0xE0 + v / 0x1000) as char, Tail(v / 0x40), Tail(v)]
    else [(0xF0 + v / 0x4_0000) as char, Tail(v / 0x1000), Tail(v / 0x40), Tail(v)]
  }

  lemma EncodedIsOneCharacter(c: char)
    ensures FirstLength(EncodeChar(c)) == |EncodeChar(c)| > 0
  {
  }

  function Low(c: char): (v: int)
    requires Continuation(c)
    ensures 0 <= v < 0x40
  {
    c as int - 0x80
  }

  lemma LastDigit(v: nat, q: nat, r: nat)
    requires v == q * 0x40 + r && r < 0x40
    ensures v / 0x40 == q && v % 0x40 == r
  {
  }

  lemma TwoDigits(v: nat, q: nat, x: nat, y: nat)
    requires v == q * 0x1000 + x * 0x40 + y && x < 0x40 && y < 0x40
    ensures v / 0x1000 == q && v / 0x40 % 0x40 == x && v % 0x40 == y
  {
    LastDigit(v, q * 0x40 + x, y);
    LastDigit(q * 0x40 + x, q, x);
  }

  lemma ThreeDigits(v: nat, q: nat, x: nat, y: nat, z: nat)
    requires v == q * 0x4_0000 + x * 0x1000 + y * 0x40 + z && x < 0x40 && y < 0x40 && z < 0x40
    ensures v / 0x4_0000 == q && v / 0x1000 % 0x40 == x && v / 0x40 % 0x40 == y && v % 0x40 == z
  {
    TwoDigits(v, q * 0x40 + x, y, z);
    LastDigit(q * 0x40 + x, q, x);
  }

  lemma LeadOfTwo(s: string) returns (c: char)
    requires |s| == 2 && FirstLength(s) == 2
    ensures s == EncodeChar(c)
  {
    var q, x := s[0] as int - 0xC0, Low(s[1]);
    LastDigit(q * 0x40 + x, q, x);
    c := (q * 0x40 + x) as char;
  }

  lemma LeadOfThree(s: string) returns (c: char)
    requires |s| == 3 && FirstLength(s) == 3
    ensures s == EncodeChar(c)
  {
    var q, x, y := s[0] as int - 0xE0, Low(s[1]), Low(s[2]);
    var v := q * 0x1000 + x * 0x40 + y;
    TwoDigits(v, q, x, y);
    assert 0x800 <= v < 0x1_0000 && (v < 0xD800 || v >= 0xE000);
    c := v as char;
  }

  lemma LeadOfFour(s: string) returns (c: char)
    requires |s| == 4 && FirstLength(s) == 4
    ensures s == EncodeChar(c)
  {
    var q, x, y, z := s[0] as int - 0xF0, Low(s[1]), Low(s[2]), Low(s[3]);
    var v := q * 0x4_0000 + x * 0x1000 + y * 0x40 + z;
    ThreeDigits(v, q, x, y, z);
    assert 0x1_0000 <= v < 0x11_0000;
    c := v as char;
  }

  /** A well-formed character encodes some scalar value. */
  lemma FirstIsEncoded(s: string) returns (c: char)
    requires FirstLength(s) > 0
    ensures s[..FirstLength(s)] == EncodeChar(c)
  {
    var n := FirstLength(s);
    FirstLengthWithin(s, n);
    if n == 1 {
      c := s[0];
    } else if n == 2 {
      c := LeadOfTwo(s[..n]);
    } else if n == 3 {
      c := LeadOfThree(s[..n]);
    } else {
      c := LeadOfFour(s[..n]);
    }
  }

  function EncodeAll(text: string): string {
    if text == [] then [] else EncodeAll(text[..|text| - 1]) + EncodeChar(text[|text| - 1])
  }

  lemma EncodeSnoc(front: string, c: char, text: string)
    requires text == front + [c]
    ensures EncodeAll(text) == EncodeAll(front) + EncodeChar(c)
  {
    assert text[..|text| - 1] == front;
  }

  lemma ConcatAssoc(a: string, b: string, c: string)
    ensures a + b + c == a + (b + c)
  {
  }

  lemma {:induction false} EncodeConcat(a: string, b: string, text: string)
    requires text == a + b
    ensures EncodeAll(text) == EncodeAll(a) + EncodeAll(b)
    decreases |b|
  {
    if b == [] {
      assert text == a;
    } else {
      var front, c := b[..|b| - 1], b[|b| - 1];
      EncodeConcat(a, front, a + front);
      EncodeSnoc(front, c, b);
      EncodeSnoc(a + front, c, text);
      ConcatAssoc(EncodeAll(a), EncodeAll(front), EncodeChar(c));
    }
  }

  lemma {:induction false} EncodedIsValid(text: string)
    ensures Valid(EncodeAll(text))
  {
    if text != [] {
      var c := text[|text| - 1];
      EncodedIsValid(text[..|text| - 1]);
      EncodedIsOneCharacter(c);
      ValidConcat(EncodeAll(text[..|text| - 1]), EncodeChar(c));
    }
  }

  lemma JoinWithNothing(a: string, b: string)
    ensures [] + a + b == a + b
  {
  }

  lemma EncodeFirst(c: char, rest: string, text: string)
    requires text == [c] + rest
    ensures EncodeAll(text) == EncodeChar(c) + EncodeAll(rest)
  {
    EncodeSnoc([], c, [c]);
    EncodeConcat([c], rest, text);
    JoinWithNothing(EncodeChar(c), EncodeAll(rest));
  }

  lemma {:induction false} ValidIsEncoded(s: string) returns (text: string)
    requires Valid(s)
    ensures EncodeAll(text) == s
  {
    if s == [] {
      text := [];
    } else {
      var n := FirstLength(s);
      var c := FirstIsEncoded(s);
      var rest := ValidIsEncoded(s[n..]);
      text := [c] + rest;
      EncodeFirst(c, rest, text);
      assert s == s[..n] + s[n..];
    }
  }

  /** The valid byte strings are exactly the encodings of texts. */
  lemma ValidIffEncoded(s: string)
    ensures Valid(s) <==> exists text :: EncodeAll(text) == s
  {
    if Valid(s) {
      var text := ValidIsEncoded(s);
    }
    if text :| EncodeAll(text) == s {
      EncodedIsValid(text);
    }
  }
}
