/** The offset-tracking word tokenizer of the CRF scanner (crf_scanner.rs).

    Here a text is a sequence of Unicode scalar values; byte offsets come from their
    UTF-8 widths. Which characters are alphanumeric is a parameter. */
module Tokenizer {
  import opened Text
  import opened Utf8

  // ---- Byte offsets ----

  function Width(c: char): (w: nat)
    ensures 1 <= w <= 4
  {
    var v := c as int;
    if v < 0x80 then 1 else if v < 0x800 then 2 else if v < 0x1_0000 then 3 else 4
  }

  /** Byte offset of character position k. */
  function ByteAt(text: string, k: nat): nat
    requires k <= |text|
  {
    if k == 0 then 0 else ByteAt(text, k - 1) + Width(text[k - 1])
  }

  lemma {:induction false} ByteAtMonotone(text: string, i: nat, j: nat)
    requires i <= j <= |text|
    ensures ByteAt(text, i) + (j - i) <= ByteAt(text, j)
  {
    if i < j {
      ByteAtMonotone(text, i, j - 1);
    }
  }

  lemma {:induction false} ByteAtOfSlice(text: string, i: nat, j: nat, k: nat)
    requires i <= j <= |text| && k <= j - i
    ensures ByteAt(text, i + k) == ByteAt(text, i) + ByteAt(text[i..j], k)
  {
    if k > 0 {
      ByteAtOfSlice(text, i, j, k - 1);
    }
  }

  function PositionFrom(text: string, offset: nat, k: nat): (r: Option<nat>)
    requires k <= |text|
    ensures r.Some? ==> r.value <= k && ByteAt(text, r.value) == offset
  {
    if ByteAt(text, k) == offset then Some(k)
    else if k == 0 then None
    else PositionFrom(text, offset, k - 1)
  }

  /** The character position with a given byte offset, if that offset is a character boundary. */
  function PositionOf(text: string, offset: nat): (r: Option<nat>)
    ensures r.Some? ==> r.value <= |text|
  {
    PositionFrom(text, offset, |text|)
  }

  lemma {:induction false} PositionOfByteAt(text: string, k: nat, j: nat)
    requires k <= j <= |text|
    ensures PositionFrom(text, ByteAt(text, k), j) == Some(k)
  {
    ByteAtMonotone(text, k, j);
    if k < j {
      PositionOfByteAt(text, k, j - 1);
    }
  }

  /** The slice text[a..b] by byte offsets; None where slicing would panic. */
  function ByteSlice(text: string, a: nat, b: nat): Option<string> {
    match (PositionOf(text, a), PositionOf(text, b))
    case (Some(i), Some(j)) => if i <= j then Some(text[i..j]) else None
    case _ => None
  }

  lemma ByteSliceOfPositions(text: string, i: nat, j: nat)
    requires i <= j <= |text|
    ensures ByteSlice(text, ByteAt(text, i), ByteAt(text, j)) == Some(text[i..j])
  {
    PositionOfByteAt(text, i, |text|);
    PositionOfByteAt(text, j, |text|);
  }

  lemma WidthIsEncoded(c: char)
    ensures |EncodeChar(c)| == Width(c)
  {
  }

  lemma {:induction false} ByteAtIsEncoded(text: string, k: nat)
    requires k <= |text|
    ensures ByteAt(text, k) == |EncodeAll(text[..k])|
  {
    if k > 0 {
      ByteAtIsEncoded(text, k - 1);
      WidthIsEncoded(text[k - 1]);
      assert text[..k][..k - 1] == text[..k - 1];
    }
  }

  lemma MiddleOf(whole: string, front: string, mid: string, upTo: string, rest: string)
    requires whole == upTo + rest && upTo == front + mid
    ensures |front| <= |upTo| <= |whole| && whole[|front|..|upTo|] == mid
  {
  }

  lemma EncodedSlice(text: string, i: nat, j: nat, a: nat, b: nat)
    requires i <= j <= |text| && a == |EncodeAll(text[..i])| && b == |EncodeAll(text[..j])|
    ensures a <= b <= |EncodeAll(text)| && EncodeAll(text)[a..b] == EncodeAll(text[i..j])
  {
    var front, mid, upTo, rest := text[..i], text[i..j], text[..j], text[j..];
    EncodeConcat(front, mid, upTo);
    EncodeConcat(upTo, rest, text);
    MiddleOf(EncodeAll(text), EncodeAll(front), EncodeAll(mid), EncodeAll(upTo), EncodeAll(rest));
  }

  /** Byte offsets are those of the UTF-8 form: what a slice by offsets gives encodes to the bytes between them. */
  lemma ByteSliceIsEncoded(text: string, a: nat, b: nat)
    requires ByteSlice(text, a, b).Some?
    ensures a <= b <= |EncodeAll(text)| && EncodeAll(text)[a..b] == EncodeAll(ByteSlice(text, a, b).value)
  {
    var i, j := PositionOf(text, a).value, PositionOf(text, b).value;
    ByteAtIsEncoded(text, i);
    ByteAtIsEncoded(text, j);
    EncodedSlice(text, i, j, a, b);
  }

  // ---- Tokens ----

  datatype Token = Token(text: string, byteStart: nat, byteEnd: nat)

  predicate Dash(c: char) {
    c == '-' || c == '\''
  }

  predicate WordChar(alnum: char -> bool, c: char) {
    alnum(c) || Dash(c)
  }

  /** First position from i on that is not a dash, below j. */
  function TrimStart(text: string, i: nat, j: nat): (k: nat)
    requires i <= j <= |text|
    ensures i <= k <= j
    ensures k < j ==> !Dash(text[k])
    decreases j - i
  {
    if i < j && Dash(text[i]) then TrimStart(text, i + 1, j) else i
  }

  function TrimEnd(text: string, i: nat, j: nat): (k: nat)
    requires i <= j <= |text|
    ensures i <= k <= j
    ensures i < k ==> !Dash(text[k - 1])
    decreases j - i
  {
    if i < j && Dash(text[j - 1]) then TrimEnd(text, i, j - 1) else j
  }

  lemma {:induction false} TrimmedAreDashes(text: string, i: nat, j: nat, p: nat)
    requires i <= p < j <= |text|
    ensures p < TrimStart(text, i, j) ==> Dash(text[p])
    ensures p >= TrimEnd(text, i, j) ==> Dash(text[p])
    decreases j - i
  {
    if Dash(text[i]) && i < p {
      TrimmedAreDashes(text, i + 1, j, p);
    }
    if Dash(text[j - 1]) && p < j - 1 {
      TrimmedAreDashes(text, i, j - 1, p);
    }
  }

  function RangeTokens(text: string, lo: nat, hi: nat): (ts: seq<Token>)
    requires lo <= hi <= |text|
  {
    if lo == hi then [] else [Token(text[lo..hi], ByteAt(text, lo), ByteAt(text, hi))]
  }

  /** The token of the word text[i..j], if anything is left after trimming. */
  function WordTokens(text: string, i: nat, j: nat): (ts: seq<Token>)
    requires i <= j <= |text|
  {
    var lo := TrimStart(text, i, j);
    RangeTokens(text, lo, TrimEnd(text, lo, j))
  }

  function WordEnd(alnum: char -> bool, text: string, i: nat): (j: nat)
    requires i <= |text|
    ensures i <= j <= |text|
    ensures j < |text| ==> !WordChar(alnum, text[j])
    decreases |text| - i
  {
    if i < |text| && WordChar(alnum, text[i]) then WordEnd(alnum, text, i + 1) else i
  }

  /** Tokens of the maximal words from position i on. */
  function TokensFrom(alnum: char -> bool, text: string, i: nat): seq<Token>
    requires i <= |text|
    decreases |text| - i
  {
    if i == |text| then []
    else if !WordChar(alnum, text[i]) then TokensFrom(alnum, text, i + 1)
    else
      var j := WordEnd(alnum, text, i);
      WordTokens(text, i, j) + TokensFrom(alnum, text, j)
  }

  /** A search for the trimmed word cannot stop before the true trim offset: everything skipped
      by trimming is a dash and the trimmed word does not start with one. */
  lemma {:induction false} FindIsTrimOffset(word: string, lo: nat, hi: nat, k: nat)
    requires k <= lo < hi <= |word| && !Dash(word[lo])
    requires forall p | 0 <= p < lo :: Dash(word[p])
    ensures FindFrom(word, word[lo..hi], k) == Some(lo)
    decreases lo - k
  {
    if k < lo {
      assert word[k..k + (hi - lo)][0] == word[k];
      FindIsTrimOffset(word, lo, hi, k + 1);
    }
  }

  lemma {:induction false} TrimStartOfSlice(text: string, i: nat, j: nat, q: nat)
    requires i <= i + q <= j <= |text|
    ensures TrimStart(text, i + q, j) == i + TrimStart(text[i..j], q, j - i)
    decreases j - i - q
  {
    if i + q < j && Dash(text[i + q]) {
      TrimStartOfSlice(text, i, j, q + 1);
    }
  }

  lemma {:induction false} TrimEndOfSlice(text: string, i: nat, j: nat, lo: nat, q: nat)
    requires i <= i + lo <= i + q <= j <= |text|
    ensures TrimEnd(text, i + lo, i + q) == i + TrimEnd(text[i..j], lo, q)
    decreases q
  {
    if lo < q && Dash(text[i + q - 1]) {
      TrimEndOfSlice(text, i, j, lo, q - 1);
    }
  }

  lemma TrimOfSlice(text: string, i: nat, j: nat, lo: nat, hi: nat)
    requires i <= j <= |text| && lo == TrimStart(text[i..j], 0, j - i) && hi == TrimEnd(text[i..j], lo, j - i)
    ensures TrimStart(text, i, j) == i + lo && TrimEnd(text, i + lo, j) == i + hi
  {
    TrimStartOfSlice(text, i, j, 0);
    TrimEndOfSlice(text, i, j, lo, j - i);
  }

  /** Offsets within a word turn into offsets within the text. */
  lemma SliceByOffsets(text: string, i: nat, j: nat, lo: nat, hi: nat, from: nat, to: nat)
    requires i <= j <= |text| && lo <= hi <= j - i
    requires from == ByteAt(text, i) + ByteAt(text[i..j], lo)
    requires to == from + ByteAt(text[i + lo..i + hi], hi - lo)
    ensures from == ByteAt(text, i + lo) && to == ByteAt(text, i + hi)
    ensures ByteSlice(text, from, to) == Some(text[i + lo..i + hi])
  {
    ByteAtOfSlice(text, i, j, lo);
    ByteAtOfSlice(text, i + lo, i + hi, hi - lo);
    ByteSliceOfPositions(text, i + lo, i + hi);
  }

  /** Trims a word and finds the byte offset of what is left by searching for it. */
  method FindTrimmed(word: string) returns (trimmed: string, trimOffset: nat, ghost lo: nat, ghost hi: nat)
    ensures lo == TrimStart(word, 0, |word|) && hi == TrimEnd(word, lo, |word|)
    ensures lo <= hi <= |word| && trimmed == word[lo..hi]
    ensures lo < hi ==> trimOffset == ByteAt(word, lo)
  {
    var from := TrimStart(word, 0, |word|);
    var to := TrimEnd(word, from, |word|);
    trimmed := word[from..to];
    lo, hi := from, to;
    if lo < hi {
      forall p | 0 <= p < lo
        ensures Dash(word[p])
      {
        TrimmedAreDashes(word, 0, |word|, p);
      }
      FindIsTrimOffset(word, lo, hi, 0);
    }
    trimOffset := match FindFrom(word, trimmed, 0) case Some(k) => ByteAt(word, k) case None => 0;
  }

  lemma RangeTokenFromOffsets(text: string, i: nat, j: nat, lo: nat, hi: nat, from: nat, to: nat)
    requires i <= j <= |text| && lo < hi <= j - i
    requires from == ByteAt(text, i) + ByteAt(text[i..j], lo)
    requires to == from + ByteAt(text[i + lo..i + hi], hi - lo)
    ensures var raw := ByteSlice(text, from, to);
            raw.Some? && RangeTokens(text, i + lo, i + hi) == [Token(raw.value, from, to)]
  {
    SliceByOffsets(text, i, j, lo, hi, from, to);
  }

  lemma SliceOfSlice(text: string, i: nat, j: nat, lo: nat, hi: nat)
    requires i <= j <= |text| && lo <= hi <= j - i
    ensures text[i..j][lo..hi] == text[i + lo..i + hi]
  {
    var word := text[i..j];
    assert forall k | 0 <= k < hi - lo :: word[lo..hi][k] == word[lo + k] == text[i + lo + k];
  }

  lemma WordTokensOf(text: string, i: nat, j: nat, lo: nat, hi: nat)
    requires i <= j <= |text| && lo == TrimStart(text[i..j], 0, j - i) && hi == TrimEnd(text[i..j], lo, j - i)
    ensures lo <= hi <= j - i && WordTokens(text, i, j) == RangeTokens(text, i + lo, i + hi)
  {
    TrimOfSlice(text, i, j, lo, hi);
  }

  /** Emits the token of the word text[i..j]; the byte offset of i is at. */
  method PushWord(text: string, i: nat, at: nat, j: nat) returns (ts: seq<Token>)
    requires i <= j <= |text| && at == ByteAt(text, i)
    ensures ts == WordTokens(text, i, j)
  {
    var trimmed, trimOffset, lo, hi := FindTrimmed(text[i..j]);
    WordTokensOf(text, i, j, lo, hi);
    if trimmed == [] {
      return [];
    }
    var from := at + trimOffset;
    var to := from + ByteAt(trimmed, |trimmed|);
    SliceOfSlice(text, i, j, lo, hi);
    RangeTokenFromOffsets(text, i, j, lo, hi, from, to);
    ts := [Token(ByteSlice(text, from, to).value, from, to)];
  }

  method Tokenize(alnum: char -> bool, text: string) returns (tokens: seq<Token>)
    ensures tokens == TokensFrom(alnum, text, 0)
  {
    tokens := [];
    var start: Option<(nat, nat)> := None;
    var at := 0;
    for i := 0 to |text|
      invariant at == ByteAt(text, i)
      invariant start.None? ==> tokens + TokensFrom(alnum, text, i) == TokensFrom(alnum, text, 0)
      invariant start.Some? ==>
                  && start.value.0 < i && start.value.1 == ByteAt(text, start.value.0)
                  && WordEnd(alnum, text, start.value.0) == WordEnd(alnum, text, i)
                  && WordChar(alnum, text[start.value.0])
                  && tokens + TokensFrom(alnum, text, start.value.0) == TokensFrom(alnum, text, 0)
    {
      if WordChar(alnum, text[i]) {
        if start.None? {
          start := Some((i, at));
        }
      } else if start.Some? {
        var pushed := PushWord(text, start.value.0, start.value.1, i);
        tokens := tokens + pushed;
        start := None;
      }
      at := at + Width(text[i]);
    }
    if start.Some? {
      var pushed := PushWord(text, start.value.0, start.value.1, |text|);
      tokens := tokens + pushed;
    }
  }

  // ---- What the tokens are ----

  /** Token t is a slice of the text at its byte offsets, cut at non-dash characters. */
  ghost predicate TokenOf(text: string, t: Token) {
    && t.byteStart < t.byteEnd && ByteSlice(text, t.byteStart, t.byteEnd) == Some(t.text)
    && t.text != [] && !Dash(t.text[0]) && !Dash(t.text[|t.text| - 1])
  }

  /** Tokens in text order, with at least one byte between two of them. */
  ghost predicate TokensOrdered(text: string, ts: seq<Token>, from: nat) {
    && (forall a | 0 <= a < |ts| :: TokenOf(text, ts[a]) && from <= ts[a].byteStart)
    && (forall a, b | 0 <= a < b < |ts| :: ts[a].byteEnd < ts[b].byteStart)
  }

  lemma SliceIsToken(text: string, lo: nat, hi: nat)
    requires lo < hi <= |text| && !Dash(text[lo]) && !Dash(text[hi - 1])
    ensures TokenOf(text, Token(text[lo..hi], ByteAt(text, lo), ByteAt(text, hi)))
  {
    ByteAtMonotone(text, lo, hi);
    ByteSliceOfPositions(text, lo, hi);
  }

  lemma WordTokenInPlace(text: string, i: nat, j: nat)
    requires i <= j <= |text|
    ensures forall t | t in WordTokens(text, i, j) ::
              TokenOf(text, t) && ByteAt(text, i) <= t.byteStart && t.byteEnd <= ByteAt(text, j)
  {
    var lo := TrimStart(text, i, j);
    var hi := TrimEnd(text, lo, j);
    ByteAtMonotone(text, i, lo);
    ByteAtMonotone(text, hi, j);
    if lo < hi {
      SliceIsToken(text, lo, hi);
    }
  }

  lemma OrderedAfterWord(text: string, word: seq<Token>, rest: seq<Token>, i: nat, j: nat)
    requires i <= j < |text| && |word| <= 1
    requires forall t | t in word :: TokenOf(text, t) && ByteAt(text, i) <= t.byteStart && t.byteEnd <= ByteAt(text, j)
    requires TokensOrdered(text, rest, ByteAt(text, j + 1))
    ensures TokensOrdered(text, word + rest, ByteAt(text, i))
  {
    ByteAtMonotone(text, i, j + 1);
    ByteAtMonotone(text, j, j + 1);
  }

  /** Tokens from a word on: those of the word, then those after the character that ends it. */
  lemma TokensOfWord(alnum: char -> bool, text: string, i: nat)
    requires i < |text| && WordChar(alnum, text[i])
    ensures var j := WordEnd(alnum, text, i);
            && i < j
            && TokensFrom(alnum, text, i)
               == WordTokens(text, i, j) + if j == |text| then [] else TokensFrom(alnum, text, j + 1)
  {
  }

  lemma {:induction false} TokensAreOrdered(alnum: char -> bool, text: string, i: nat)
    requires i <= |text|
    ensures TokensOrdered(text, TokensFrom(alnum, text, i), ByteAt(text, i))
    decreases |text| - i
  {
    if i < |text| {
      if !WordChar(alnum, text[i]) {
        TokensAreOrdered(alnum, text, i + 1);
        OrderedAfterWord(text, [], TokensFrom(alnum, text, i + 1), i, i);
        assert [] + TokensFrom(alnum, text, i + 1) == TokensFrom(alnum, text, i);
      } else {
        TokensOfWord(alnum, text, i);
        var j := WordEnd(alnum, text, i);
        WordTokenInPlace(text, i, j);
        if j < |text| {
          TokensAreOrdered(alnum, text, j + 1);
          OrderedAfterWord(text, WordTokens(text, i, j), TokensFrom(alnum, text, j + 1), i, j);
        }
      }
    }
  }

  /** No letter or digit is lost: each lies in exactly the token whose bytes include it. */
  lemma {:induction false} EveryAlnumInToken(alnum: char -> bool, text: string, i: nat, p: nat)
    requires i <= p < |text| && alnum(text[p]) && !Dash(text[p])
    ensures exists t :: t in TokensFrom(alnum, text, i) && t.byteStart <= ByteAt(text, p) < t.byteEnd
    decreases |text| - i
  {
    if !WordChar(alnum, text[i]) {
      EveryAlnumInToken(alnum, text, i + 1, p);
    } else {
      var j := WordEnd(alnum, text, i);
      if p < j {
        var lo := TrimStart(text, i, j);
        var hi := TrimEnd(text, lo, j);
        TrimmedAreDashes(text, i, j, p);
        TrimmedAreDashes(text, lo, j, p);
        assert lo <= p < hi;
        ByteAtMonotone(text, lo, p);
        ByteAtMonotone(text, p, hi);
        assert WordTokens(text, i, j)[0] in TokensFrom(alnum, text, i);
      } else {
        EveryAlnumInToken(alnum, text, j, p);
        var t :| t in TokensFrom(alnum, text, j) && t.byteStart <= ByteAt(text, p) < t.byteEnd;
        assert t in TokensFrom(alnum, text, i);
      }
    }
  }

  // ---- Exactly which tokens there are ----

  predicate HyphenAt(text: string, p: nat) {
    p < |text| && (text[p] == '-' || text[p] == '\'')
  }

  predicate LetterAt(alnum: char -> bool, text: string, p: nat) {
    p < |text| && (alnum(text[p]) || HyphenAt(text, p))
  }

  ghost predicate Hyphens(text: string, a: nat, b: nat) {
    forall p: nat | a <= p < b :: HyphenAt(text, p)
  }

  /** Positions a..b hold letters, digits, hyphens and apostrophes, and neither neighbour is one. */
  ghost predicate IsWord(alnum: char -> bool, text: string, a: nat, b: nat) {
    && a < b <= |text| && (forall p: nat | a <= p < b :: LetterAt(alnum, text, p))
    && (a > 0 ==> !LetterAt(alnum, text, a - 1)) && !LetterAt(alnum, text, b)
  }

  /** The token is the word a..b without the hyphens and apostrophes at its ends, with its byte offsets. */
  ghost predicate TokenOfWord(alnum: char -> bool, text: string, a: nat, b: nat, lo: nat, hi: nat, t: Token) {
    && IsWord(alnum, text, a, b) && a <= lo < hi <= b
    && Hyphens(text, a, lo) && !HyphenAt(text, lo) && !HyphenAt(text, hi - 1) && Hyphens(text, hi, b)
    && t == Token(text[lo..hi], ByteAt(text, lo), ByteAt(text, hi))
  }

  ghost predicate OfSomeWord(alnum: char -> bool, text: string, from: nat, t: Token) {
    exists a: nat, b: nat, lo: nat, hi: nat :: from <= a && TokenOfWord(alnum, text, a, b, lo, hi, t)
  }

  lemma {:induction false} WordEndIsMaximal(alnum: char -> bool, text: string, i: nat)
    requires i <= |text|
    ensures i < WordEnd(alnum, text, i) ==> WordChar(alnum, text[i])
    ensures forall p: nat | i <= p < WordEnd(alnum, text, i) :: LetterAt(alnum, text, p)
    ensures !LetterAt(alnum, text, WordEnd(alnum, text, i))
    decreases |text| - i
  {
    if i < |text| && WordChar(alnum, text[i]) {
      WordEndIsMaximal(alnum, text, i + 1);
    }
  }

  lemma TrimIsHyphens(text: string, i: nat, j: nat)
    requires i <= j <= |text|
    ensures Hyphens(text, i, TrimStart(text, i, j)) && Hyphens(text, TrimEnd(text, i, j), j)
  {
    forall p: nat | i <= p < j
      ensures p < TrimStart(text, i, j) || p >= TrimEnd(text, i, j) ==> HyphenAt(text, p)
    {
      TrimmedAreDashes(text, i, j, p);
    }
  }

  /** Where a word is trimmed is determined. */
  lemma TrimIsUnique(text: string, a: nat, b: nat, lo: nat, hi: nat)
    requires a <= lo < hi <= b <= |text|
    requires Hyphens(text, a, lo) && !HyphenAt(text, lo) && !HyphenAt(text, hi - 1) && Hyphens(text, hi, b)
    ensures lo == TrimStart(text, a, b) && hi == TrimEnd(text, lo, b)
  {
    var x := TrimStart(text, a, b);
    TrimIsHyphens(text, a, b);
    assert x < lo ==> HyphenAt(text, x);
    var y, last: nat := TrimEnd(text, lo, b), hi - 1;
    TrimIsHyphens(text, lo, b);
    assert y < hi ==> HyphenAt(text, last);
    var end: nat := if hi < y then y - 1 else hi;
    assert hi < y ==> HyphenAt(text, end);
  }

  lemma TokensOfOneWord(alnum: char -> bool, text: string, a: nat, b: nat, t: Token)
    requires IsWord(alnum, text, a, b)
    ensures t in WordTokens(text, a, b) <==> exists lo: nat, hi: nat :: TokenOfWord(alnum, text, a, b, lo, hi, t)
  {
    var x := TrimStart(text, a, b);
    var y := TrimEnd(text, x, b);
    TrimIsHyphens(text, a, b);
    TrimIsHyphens(text, x, b);
    if t in WordTokens(text, a, b) {
      assert TokenOfWord(alnum, text, a, b, x, y, t);
    }
    if lo: nat, hi: nat :| TokenOfWord(alnum, text, a, b, lo, hi, t) {
      TrimIsUnique(text, a, b, lo, hi);
    }
  }

  /** A word that starts further on starts behind the end of this one. */
  lemma WordsApart(alnum: char -> bool, text: string, a: nat, b: nat, x: nat, y: nat)
    requires IsWord(alnum, text, a, b) && IsWord(alnum, text, x, y) && a <= x
    ensures (a == x && b == y) || b < x
  {
    assert a == x && b < y ==> LetterAt(alnum, text, b);
    assert a == x && y < b ==> LetterAt(alnum, text, y);
    if a < x {
      var before: nat := x - 1;
      assert before < b ==> LetterAt(alnum, text, before);
    }
  }

  lemma WordOrLater(alnum: char -> bool, text: string, a: nat, b: nat, t: Token)
    requires IsWord(alnum, text, a, b)
    ensures OfSomeWord(alnum, text, a, t) <==> t in WordTokens(text, a, b) || OfSomeWord(alnum, text, b + 1, t)
  {
    TokensOfOneWord(alnum, text, a, b, t);
    if x: nat, y: nat, lo: nat, hi: nat :| a <= x && TokenOfWord(alnum, text, x, y, lo, hi, t) {
      WordsApart(alnum, text, a, b, x, y);
    }
  }

  lemma NoWordBehind(alnum: char -> bool, text: string, from: nat, t: Token)
    requires from >= |text|
    ensures !OfSomeWord(alnum, text, from, t)
  {
  }

  lemma WordAtStart(alnum: char -> bool, text: string, i: nat)
    requires i < |text| && WordChar(alnum, text[i]) && (i > 0 ==> !WordChar(alnum, text[i - 1]))
    ensures IsWord(alnum, text, i, WordEnd(alnum, text, i))
  {
    WordEndIsMaximal(alnum, text, i);
  }

  lemma ExactlyAtEnd(alnum: char -> bool, text: string, t: Token)
    ensures t in TokensFrom(alnum, text, |text|) <==> OfSomeWord(alnum, text, |text|, t)
  {
    NoWordBehind(alnum, text, |text|, t);
  }

  lemma NotFromHere(alnum: char -> bool, text: string, i: nat, t: Token)
    requires i < |text| && !WordChar(alnum, text[i])
    ensures OfSomeWord(alnum, text, i, t) <==> OfSomeWord(alnum, text, i + 1, t)
  {
    if a: nat, b: nat, lo: nat, hi: nat :| i <= a && TokenOfWord(alnum, text, a, b, lo, hi, t) {
      assert LetterAt(alnum, text, a);
    }
  }

  lemma ExactlyFromNext(alnum: char -> bool, text: string, i: nat, t: Token)
    requires i < |text| && !WordChar(alnum, text[i])
    requires t in TokensFrom(alnum, text, i + 1) <==> OfSomeWord(alnum, text, i + 1, t)
    ensures t in TokensFrom(alnum, text, i) <==> OfSomeWord(alnum, text, i, t)
  {
    NotFromHere(alnum, text, i, t);
  }

  lemma WordThenRest(alnum: char -> bool, text: string, a: nat, b: nat, rest: seq<Token>, t: Token)
    requires IsWord(alnum, text, a, b) && (t in rest <==> OfSomeWord(alnum, text, b + 1, t))
    ensures t in WordTokens(text, a, b) + rest <==> OfSomeWord(alnum, text, a, t)
  {
    WordOrLater(alnum, text, a, b, t);
  }

  lemma ExactlyFromWord(alnum: char -> bool, text: string, i: nat, j: nat, t: Token)
    requires i < |text| && WordChar(alnum, text[i]) && (i > 0 ==> !WordChar(alnum, text[i - 1]))
    requires j == WordEnd(alnum, text, i)
    requires j < |text| ==> (t in TokensFrom(alnum, text, j + 1) <==> OfSomeWord(alnum, text, j + 1, t))
    ensures t in TokensFrom(alnum, text, i) <==> OfSomeWord(alnum, text, i, t)
  {
    WordAtStart(alnum, text, i);
    TokensOfWord(alnum, text, i);
    if j == |text| {
      NoWordBehind(alnum, text, j + 1, t);
      WordThenRest(alnum, text, i, j, [], t);
    } else {
      WordThenRest(alnum, text, i, j, TokensFrom(alnum, text, j + 1), t);
    }
  }

  /** The tokens are exactly the maximal words, trimmed, of which something is left. */
  lemma {:induction false} TokensExactly(alnum: char -> bool, text: string, i: nat, t: Token)
    requires i <= |text| && (i > 0 ==> !WordChar(alnum, text[i - 1]))
    ensures t in TokensFrom(alnum, text, i) <==> OfSomeWord(alnum, text, i, t)
    decreases |text| - i
  {
    if i == |text| {
      ExactlyAtEnd(alnum, text, t);
    } else if !WordChar(alnum, text[i]) {
      TokensExactly(alnum, text, i + 1, t);
      ExactlyFromNext(alnum, text, i, t);
    } else {
      var j := WordEnd(alnum, text, i);
      if j < |text| {
        TokensExactly(alnum, text, j + 1, t);
      }
      ExactlyFromWord(alnum, text, i, j, t);
    }
  }
}
