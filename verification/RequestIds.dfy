/** How the journal writes and reads request ids (crash_buffer.rs).

    The uuid library itself is not part of this model; what the journal needs of it is that an id reads back
    as it was written. */
module RequestIds {
  import opened Text

  const UUID_LIMIT: nat := 0x1_0000_0000_0000_0000_0000_0000_0000_0000

  type Uuid = u: nat | u < UUID_LIMIT

  predicate Plain(s: string) {
    '|' !in s && '\n' !in s && '\r' !in s && '\0' !in s
  }

  datatype UuidText = UuidText(print_: Uuid -> string, parse: string -> Option<Uuid>) {
    ghost predicate Lawful() {
      forall u: Uuid :: parse(print_(u)) == Some(u) && Plain(print_(u))
    }

    /** Ids are written in the form of section 4 of RFC 9562: 32 hexadecimal digits and four hyphens. */
    ghost predicate Hyphenated() {
      forall u: Uuid :: |print_(u)| == 36
    }
  }

  // ---- Hexadecimal digits ----

  function HexDigit(d: nat): (c: char)
    requires d < 16
    ensures '0' <= c <= '9' || 'a' <= c <= 'f'
  {
    if d < 10 then '0' + d as char else 'a' + (d - 10) as char
  }

  function HexValue(c: char): (d: Option<nat>)
    ensures d.Some? ==> d.value < 16
  {
    if '0' <= c <= '9' then Some((c - '0') as nat)
    else if 'a' <= c <= 'f' then Some((c - 'a') as nat + 10)
    else None
  }

  predicate HexDigits(s: string) {
    forall c | c in s :: '0' <= c <= '9' || 'a' <= c <= 'f'
  }

  function Pow16(n: nat): (p: nat)
    ensures p > 0
  {
    if n == 0 then 1 else 16 * Pow16(n - 1)
  }

  /** The last n hexadecimal digits of u. */
  function PrintHex(u: nat, n: nat): (s: string)
    ensures |s| == n && HexDigits(s)
  {
    if n == 0 then "" else PrintHex(u / 16, n - 1) + [HexDigit(u % 16)]
  }

  function ParseHex(s: string): Option<nat> {
    if s == [] then Some(0)
    else
      match ParseHex(s[..|s| - 1])
      case None => None
      case Some(n) =>
        match HexValue(s[|s| - 1])
        case None => None
        case Some(d) => Some(16 * n + d)
  }

  lemma {:induction false} ParseHexOfPrint(u: nat, n: nat)
    requires u < Pow16(n)
    ensures ParseHex(PrintHex(u, n)) == Some(u)
  {
    if n > 0 {
      var s := PrintHex(u, n);
      ParseHexOfPrint(u / 16, n - 1);
      assert s[..|s| - 1] == PrintHex(u / 16, n - 1);
      assert HexValue(s[|s| - 1]) == Some(u % 16);
    }
  }

  // ---- The hyphenated form ----

  function Hyphens(s: string): (r: string)
    requires |s| == 32
    ensures |r| == 36
  {
    s[..8] + "-" + s[8..12] + "-" + s[12..16] + "-" + s[16..20] + "-" + s[20..]
  }

  function NoHyphens(s: string): (r: string)
    requires |s| == 36
    ensures |r| == 32
  {
    s[..8] + s[9..13] + s[14..18] + s[19..23] + s[24..]
  }

  lemma NoHyphensOfHyphens(s: string)
    requires |s| == 32
    ensures NoHyphens(Hyphens(s)) == s
  {
    var r := Hyphens(s);
    assert r[..8] == s[..8] && r[9..13] == s[8..12] && r[14..18] == s[12..16] && r[19..23] == s[16..20];
    assert r[24..] == s[20..];
  }

  lemma HyphensArePlain(s: string)
    requires |s| == 32 && HexDigits(s)
    ensures Plain(Hyphens(s))
  {
    var r := Hyphens(s);
    forall i | 0 <= i < |r|
      ensures r[i] == '-' || r[i] in s
    {
      var k := if i < 8 then i else if i < 13 then i - 1 else if i < 18 then i - 2 else if i < 23 then i - 3 else i - 4;
      assert r[i] == '-' || r[i] == s[k];
    }
  }

  function PrintHyphenated(u: Uuid): string {
    Hyphens(PrintHex(u, 32))
  }

  function ParseHyphenated(s: string): Option<Uuid> {
    if |s| != 36 then None
    else
      match ParseHex(NoHyphens(s))
      case None => None
      case Some(n) => if n < UUID_LIMIT then Some(n) else None
  }

  /** The hyphenated form, so that there is a form of the kind the journal needs. */
  function HexIds(): UuidText {
    UuidText(PrintHyphenated, ParseHyphenated)
  }

  lemma LimitIsPower()
    ensures Pow16(32) == UUID_LIMIT
  {
    assert Pow16(8) == 0x1_0000_0000;
    assert Pow16(16) == 0x1_0000_0000_0000_0000;
    assert Pow16(24) == 0x1_0000_0000_0000_0000_0000_0000;
  }

  lemma HexIdsAreLawful()
    ensures HexIds().Lawful() && HexIds().Hyphenated()
  {
    forall u: Uuid
      ensures ParseHyphenated(PrintHyphenated(u)) == Some(u) && Plain(PrintHyphenated(u))
    {
      var s := PrintHex(u, 32);
      LimitIsPower();
      ParseHexOfPrint(u, 32);
      NoHyphensOfHyphens(s);
      HyphensArePlain(s);
    }
  }
}
