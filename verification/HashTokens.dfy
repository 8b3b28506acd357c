/** Redaction tokens derived from hashes, kept apart within one request (hash_token.rs).
    The hash function is a parameter. */
module HashTokens {
  import opened Pii

  // ---- Base 36 ----

  const BASE36_CHARS: string := "0123456789abcdefghijklmnopqrstuvwxyz"

  /** The last n base-36 digits of v. */
  function Base36(v: nat, n: nat): (s: string)
    ensures |s| == n
  {
    if n == 0 then [] else Base36(v / 36, n - 1) + [BASE36_CHARS[v % 36]]
  }

  function DigitValue(c: char): nat {
    if '0' <= c <= '9' then (c - '0') as nat else if 'a' <= c <= 'z' then 10 + (c - 'a') as nat else 0
  }

  function FromBase36(s: string): nat {
    if s == [] then 0 else 36 * FromBase36(s[..|s| - 1]) + DigitValue(s[|s| - 1])
  }

  function Pow36(n: nat): (p: nat)
    ensures p > 0
  {
    if n == 0 then 1 else 36 * Pow36(n - 1)
  }

  lemma DigitRoundTrip(d: nat)
    requires d < 36
    ensures DigitValue(BASE36_CHARS[d]) == d
  {
    if d < 10 {
      assert BASE36_CHARS[d] == '0' + d as char;
    } else {
      assert BASE36_CHARS[d] == 'a' + (d - 10) as char;
    }
  }

  lemma AtLeastOnce(x: nat, m: nat)
    requires x > 0
    ensures x * m >= m
  {
  }

  lemma RemaindersAgree(q: nat, s: nat, a: nat, r: nat, m: nat)
    requires q * m + s == a * m + r && s < m && r < m
    ensures s == r
  {
    assert (q - a) * m == q * m - a * m && (a - q) * m == a * m - q * m;
    if q > a {
      AtLeastOnce(q - a, m);
    } else if a > q {
      AtLeastOnce(a - q, m);
    }
  }

  lemma DivUnique(v: nat, m: nat, a: nat, r: nat)
    requires m > 0 && v == a * m + r && r < m
    ensures v % m == r
  {
    RemaindersAgree(v / m, v % m, a, r, m);
  }

  lemma ModStep(v: nat, p: nat)
    requires p > 0
    ensures v % (36 * p) == 36 * ((v / 36) % p) + v % 36
  {
    var q, r := v / 36, v % 36;
    var a, b := q / p, q % p;
    assert v == 36 * (a * p + b) + r;
    assert v == a * (36 * p) + (36 * b + r);
    assert 36 * b + r < 36 * p;
    DivUnique(v, 36 * p, a, 36 * b + r);
  }

  /** Reading the digits back gives the value modulo 36^n, so two values share a token exactly
      when they agree modulo 36^n. */
  lemma {:induction false} Base36RoundTrip(v: nat, n: nat)
    ensures FromBase36(Base36(v, n)) == v % Pow36(n)
  {
    if n > 0 {
      Base36RoundTrip(v / 36, n - 1);
      var s := Base36(v, n);
      assert s[..n - 1] == Base36(v / 36, n - 1);
      DigitRoundTrip(v % 36);
      ModStep(v, Pow36(n - 1));
    }
  }

  lemma QuotientAndRemainder(w: nat, q: nat, r: nat)
    requires w == 36 * q + r && r < 36
    ensures w / 36 == q && w % 36 == r
  {
  }

  /** Only the value modulo 36^n shows. */
  lemma {:induction false} Base36OfRemainder(v: nat, n: nat)
    ensures Base36(v, n) == Base36(v % Pow36(n), n)
  {
    if n > 0 {
      var p := Pow36(n - 1);
      ModStep(v, p);
      QuotientAndRemainder(v % Pow36(n), (v / 36) % p, v % 36);
      Base36OfRemainder(v / 36, n - 1);
    }
  }

  function BigEndian(b: string): nat
    requires |b| == 4
  {
    ((b[0] as int * 256 + b[1] as int) * 256 + b[2] as int) * 256 + b[3] as int
  }

  method EncodeBase36(bytes: string) returns (s: string)
    requires |bytes| == 4
    ensures s == Base36(BigEndian(bytes), 4)
  {
    var result := new char[4](_ => '0');
    var v: nat := BigEndian(bytes);
    for k := 4 downto 0
      invariant Base36(BigEndian(bytes), 4) == Base36(v, k) + result[k..]
    {
      ghost var tail := result[k + 1..];
      result[k] := BASE36_CHARS[v % 36];
      assert result[k..] == [BASE36_CHARS[v % 36]] + tail;
      v := v / 36;
    }
    s := result[..];
  }

  function Bytes(d: string): nat
    requires |d| >= 4
  {
    d[0] as int * 0x100_0000 + d[1] as int * 0x1_0000 + d[2] as int * 0x100 + d[3] as int
  }

  lemma BigEndianIsBytes(d: string)
    requires |d| >= 4
    ensures BigEndian(d[..4]) == Bytes(d)
  {
  }

  lemma PowersOf36()
    ensures Pow36(4) == 1_679_616
  {
    assert Pow36(0) == 1 && Pow36(1) == 36 && Pow36(2) == 1296 && Pow36(3) == 46656;
  }

  /** The four characters s are base-36 digits that show the first four bytes of d, the first one highest. */
  predicate ShowsBytes(d: string, s: string) {
    |d| >= 4 && |s| == 4 && (forall k | 0 <= k < 4 :: s[k] in BASE36_CHARS) && FromBase36(s) == Bytes(d) % 1_679_616
  }

  lemma {:induction false} DigitsAreBase36(v: nat, n: nat)
    ensures forall k | 0 <= k < n :: Base36(v, n)[k] in BASE36_CHARS
  {
    if n > 0 {
      DigitsAreBase36(v / 36, n - 1);
    }
  }

  lemma DigitsShowBytes(d: string)
    requires |d| >= 4
    ensures ShowsBytes(d, Base36(BigEndian(d[..4]), 4))
  {
    BigEndianIsBytes(d);
    Base36RoundTrip(Bytes(d), 4);
    DigitsAreBase36(Bytes(d), 4);
    PowersOf36();
  }

  // ---- Tokens of one request ----

  /** The hash and the request id tokens are derived from. */
  datatype Hasher = Hasher(sha: string -> string, requestId: string) {
    ghost predicate Lawful() {
      forall s :: |sha(s)| >= 4
    }

    function Short(s: string): (h: string)
      requires |sha(s)| >= 4
      ensures |h| == 4
    {
      Base36(BigEndian(sha(s)[..4]), 4)
    }
  }

  /** What is asked for: a type prefix of three characters and a plaintext. */
  datatype Request = Request(prefix: string, plaintext: string) {
    predicate Valid() { |prefix| == 3 }

    function Key(): string { prefix + ":" + plaintext }
  }

  lemma KeyIsInjective(a: Request, b: Request)
    requires a.Valid() && b.Valid() && a.Key() == b.Key()
    ensures a == b
  {
    assert a.prefix == a.Key()[..3] && b.prefix == b.Key()[..3];
    assert a.plaintext == a.Key()[4..] && b.plaintext == b.Key()[4..];
  }

  function Base(h: Hasher, r: Request): (b: string)
    requires h.Lawful() && r.Valid()
    ensures |b| == 8 && b[..3] == r.prefix
  {
    r.prefix + "_" + h.Short(h.requestId + r.plaintext)
  }

  /** The base token: the prefix, an underscore, and the hash of the request id and the plaintext. */
  lemma BaseShape(h: Hasher, r: Request)
    requires h.Lawful() && r.Valid()
    ensures Base(h, r)[..4] == r.prefix + "_" && ShowsBytes(h.sha(h.requestId + r.plaintext), Base(h, r)[4..])
  {
    DigitsShowBytes(h.sha(h.requestId + r.plaintext));
    assert Base(h, r)[4..] == h.Short(h.requestId + r.plaintext);
  }

  /** The base token, then the base with suffix b, c, ... z. */
  function Candidate(base: string, i: nat): (c: string)
    requires i < 26
    ensures |c| >= |base| && c[..|base|] == base
  {
    if i == 0 then base else base + ['b' + (i - 1) as char]
  }

  /** The longer, unchecked fallback. */
  function Fallback(h: Hasher, base: string, plaintext: string): (f: string)
    requires h.Lawful()
    ensures |f| == |base| + 5 && f[..|base|] == base
  {
    base + "_" + h.Short(base + plaintext)
  }

  /** The other shapes: a letter from b to z behind the base token, or the hash of the base token and the plaintext. */
  lemma SuffixShape(base: string, i: nat)
    requires i < 26
    ensures Candidate(base, i) == base + if i == 0 then "" else ['a' + i as char]
  {
  }

  lemma FallbackShape(h: Hasher, base: string, plaintext: string)
    requires h.Lawful()
    ensures var f := Fallback(h, base, plaintext);
            f[..|base| + 1] == base + "_" && ShowsBytes(h.sha(base + plaintext), f[|base| + 1..])
  {
    DigitsShowBytes(h.sha(base + plaintext));
    var f := Fallback(h, base, plaintext);
    assert f[|base| + 1..] == h.Short(base + plaintext);
  }

  predicate Free(used: map<string, string>, c: string, plaintext: string) {
    c !in used || used[c] == plaintext
  }

  /** The first acceptable candidate from position i on. */
  function Resolve(h: Hasher, used: map<string, string>, base: string, plaintext: string, i: nat): string
    requires h.Lawful() && i <= 26
    decreases 26 - i
  {
    if i == 26 then Fallback(h, base, plaintext)
    else if Free(used, Candidate(base, i), plaintext) then Candidate(base, i)
    else Resolve(h, used, base, plaintext, i + 1)
  }

  datatype State = State(seen: map<string, string>, used: map<string, string>)

  const EMPTY := State(map[], map[])

  function Token(h: Hasher, st: State, r: Request): string
    requires h.Lawful() && r.Valid()
  {
    if r.Key() in st.seen then st.seen[r.Key()] else Resolve(h, st.used, Base(h, r), r.plaintext, 0)
  }

  function Next(h: Hasher, st: State, r: Request): State
    requires h.Lawful() && r.Valid()
  {
    if r.Key() in st.seen then st
    else
      var t := Token(h, st, r);
      State(st.seen[r.Key() := t], st.used[t := r.plaintext])
  }

  class TokenGenerator {
    const h: Hasher
    var seen: map<string, string>
    var usedTokens: map<string, string>

    ghost function Contents(): State
      reads this
    {
      State(seen, usedTokens)
    }

    constructor (h: Hasher)
      ensures this.h == h && Contents() == EMPTY
    {
      this.h := h;
      seen, usedTokens := map[], map[];
    }

    method ResolveCollision(base: string, plaintext: string) returns (token: string)
      requires h.Lawful()
      ensures token == Resolve(h, usedTokens, base, plaintext, 0)
    {
      if Free(usedTokens, base, plaintext) {
        return base;
      }
      var suffix := 'b';
      while suffix <= 'z'
        invariant 'b' <= suffix <= '{'
        invariant Resolve(h, usedTokens, base, plaintext, 0)
               == Resolve(h, usedTokens, base, plaintext, (suffix - 'a') as nat)
        decreases '{' - suffix
      {
        var candidate := base + [suffix];
        assert candidate == Candidate(base, (suffix - 'a') as nat);
        if Free(usedTokens, candidate, plaintext) {
          return candidate;
        }
        suffix := suffix + 1 as char;
      }
      var digest := h.sha(base + plaintext);
      var hash := EncodeBase36(digest[..4]);
      token := base + "_" + hash;
    }

    method Generate(piiType: PiiType, plaintext: string) returns (token: string)
      requires h.Lawful()
      modifies this
      ensures token == Token(h, old(Contents()), Request(piiType.HashTokenPrefix(), plaintext))
      ensures Contents() == Next(h, old(Contents()), Request(piiType.HashTokenPrefix(), plaintext))
    {
      var prefix := piiType.HashTokenPrefix();
      var dedupKey := prefix + ":" + plaintext;
      if dedupKey in seen {
        return seen[dedupKey];
      }
      var digest := h.sha(h.requestId + plaintext);
      var hash := EncodeBase36(digest[..4]);
      token := ResolveCollision(prefix + "_" + hash, plaintext);
      seen := seen[dedupKey := token];
      usedTokens := usedTokens[token := plaintext];
    }
  }

  // ---- The invariant ----

  ghost predicate KeyOk(h: Hasher, st: State, k: string)
    requires h.Lawful()
  {
    exists r: Request ::
      && r.Valid() && r.Key() == k && k in st.seen
      && |st.seen[k]| >= 8 && st.seen[k][..8] == Base(h, r)
      && st.seen[k] in st.used && st.used[st.seen[k]] == r.plaintext
  }

  ghost predicate Owned(st: State, t: string) {
    exists k :: k in st.seen && st.seen[k] == t
  }

  /** Every key has its own token, which starts with the key's base and is recorded with its plaintext;
      every recorded token belongs to a key. */
  ghost predicate Distinct(h: Hasher, st: State)
    requires h.Lawful()
  {
    && (forall k | k in st.seen :: KeyOk(h, st, k))
    && (forall t | t in st.used :: Owned(st, t))
    && (forall k, l | k in st.seen && l in st.seen && st.seen[k] == st.seen[l] :: k == l)
  }

  ghost predicate AllTaken(st: State, base: string, plaintext: string) {
    forall i: nat | i < 26 :: !Free(st.used, Candidate(base, i), plaintext)
  }

  /** All 26 short tokens are taken by other plaintexts and the fallback is taken too. */
  ghost predicate Overflows(h: Hasher, st: State, r: Request)
    requires h.Lawful() && r.Valid()
  {
    && r.Key() !in st.seen
    && AllTaken(st, Base(h, r), r.plaintext)
    && Fallback(h, Base(h, r), r.plaintext) in st.used
  }

  /** Candidate k is in use for another plaintext. */
  predicate Taken(used: map<string, string>, base: string, plaintext: string, k: nat) {
    k < 26 && Candidate(base, k) in used && used[Candidate(base, k)] != plaintext
  }

  /** The candidates i..j are taken and the next one is not. */
  predicate FirstUntaken(used: map<string, string>, base: string, plaintext: string, i: nat, j: nat) {
    i <= j < 26 && !Taken(used, base, plaintext, j) && forall k: nat | i <= k < j :: Taken(used, base, plaintext, k)
  }

  /** The token is the first candidate that nobody else has, or the fallback if all are taken. */
  lemma {:induction false} ResolveIsFirst(h: Hasher, used: map<string, string>, base: string, plaintext: string, i: nat)
    requires h.Lawful() && i <= 26
    ensures var t := Resolve(h, used, base, plaintext, i);
            || (exists j: nat :: FirstUntaken(used, base, plaintext, i, j) && t == Candidate(base, j))
            || (t == Fallback(h, base, plaintext) && forall j: nat | i <= j < 26 :: Taken(used, base, plaintext, j))
    decreases 26 - i
  {
    if i < 26 && Taken(used, base, plaintext, i) {
      ResolveIsFirst(h, used, base, plaintext, i + 1);
      var t := Resolve(h, used, base, plaintext, i + 1);
      if j: nat :| FirstUntaken(used, base, plaintext, i + 1, j) && t == Candidate(base, j) {
        assert FirstUntaken(used, base, plaintext, i, j);
      }
    } else if i < 26 {
      assert FirstUntaken(used, base, plaintext, i, i);
    }
  }

  lemma {:induction false} ResolveShape(h: Hasher, used: map<string, string>, base: string, plaintext: string, i: nat)
    requires h.Lawful() && i <= 26
    ensures var t := Resolve(h, used, base, plaintext, i);
            || (exists j: nat :: i <= j < 26 && t == Candidate(base, j) && Free(used, t, plaintext))
            || (t == Fallback(h, base, plaintext)
                && forall j: nat | i <= j < 26 :: !Free(used, Candidate(base, j), plaintext))
    decreases 26 - i
  {
    if i < 26 && !Free(used, Candidate(base, i), plaintext) {
      ResolveShape(h, used, base, plaintext, i + 1);
    }
  }

  /** A token that starts with r's base and is recorded with r's plaintext already belongs to r's key. */
  lemma OwnerIsSame(h: Hasher, st: State, r: Request, t: string)
    requires h.Lawful() && r.Valid() && Distinct(h, st)
    requires t in st.used && st.used[t] == r.plaintext && |t| >= 8 && t[..8] == Base(h, r)
    ensures r.Key() in st.seen
  {
    assert Owned(st, t);
    var k :| k in st.seen && st.seen[k] == t;
    assert KeyOk(h, st, k);
    var q: Request :| q.Valid() && q.Key() == k && st.seen[k][..8] == Base(h, q) && st.used[st.seen[k]] == q.plaintext;
    assert q.prefix == Base(h, q)[..3] == r.prefix;
    assert q == r;
  }

  lemma NewTokenFresh(h: Hasher, st: State, r: Request)
    requires h.Lawful() && r.Valid() && Distinct(h, st) && r.Key() !in st.seen && !Overflows(h, st, r)
    ensures Token(h, st, r) !in st.used
    ensures |Token(h, st, r)| >= 8 && Token(h, st, r)[..8] == Base(h, r)
  {
    var t := Token(h, st, r);
    ResolveShape(h, st.used, Base(h, r), r.plaintext, 0);
    if t in st.used && st.used[t] == r.plaintext {
      OwnerIsSame(h, st, r, t);
    }
  }

  lemma OverflowToken(h: Hasher, st: State, r: Request)
    requires h.Lawful() && r.Valid() && Overflows(h, st, r)
    ensures Token(h, st, r) == Fallback(h, Base(h, r), r.plaintext)
  {
    ResolveShape(h, st.used, Base(h, r), r.plaintext, 0);
  }

  lemma OverflowShares(h: Hasher, st: State, r: Request)
    requires h.Lawful() && r.Valid() && Distinct(h, st) && Overflows(h, st, r)
    ensures exists k :: k in st.seen && k != r.Key() && st.seen[k] == Token(h, st, r)
    ensures !Distinct(h, Next(h, st, r))
  {
    OverflowToken(h, st, r);
    var t := Token(h, st, r);
    assert Owned(st, t);
    var k :| k in st.seen && st.seen[k] == t;
    var after := Next(h, st, r);
    assert after.seen[k] == after.seen[r.Key()];
  }

  lemma KeyStaysOk(h: Hasher, st: State, r: Request, k: string)
    requires h.Lawful() && r.Valid() && KeyOk(h, st, k) && r.Key() !in st.seen && Token(h, st, r) !in st.used
    ensures KeyOk(h, Next(h, st, r), k)
  {
    var q: Request :| q.Valid() && q.Key() == k && k in st.seen && |st.seen[k]| >= 8 && st.seen[k][..8] == Base(h, q)
                      && st.seen[k] in st.used && st.used[st.seen[k]] == q.plaintext;
    var after := Next(h, st, r);
    assert after.seen[k] == st.seen[k] && after.used[after.seen[k]] == q.plaintext;
  }

  lemma FreshKeepsDistinct(h: Hasher, st: State, r: Request)
    requires h.Lawful() && r.Valid() && Distinct(h, st) && r.Key() !in st.seen
    requires Token(h, st, r) !in st.used && |Token(h, st, r)| >= 8 && Token(h, st, r)[..8] == Base(h, r)
    ensures Distinct(h, Next(h, st, r))
  {
    var after, t, key := Next(h, st, r), Token(h, st, r), r.Key();
    forall k | k in after.seen
      ensures KeyOk(h, after, k)
    {
      if k == key {
        assert after.seen[key] == t && after.used[t] == r.plaintext;
      } else {
        KeyStaysOk(h, st, r, k);
      }
    }
    forall u | u in after.used
      ensures Owned(after, u)
    {
      if u == t {
        assert after.seen[key] == t;
      } else {
        assert Owned(st, u);
        var k :| k in st.seen && st.seen[k] == u;
        assert after.seen[k] == u;
      }
    }
    forall k | k in st.seen
      ensures st.seen[k] != t
    {
      assert KeyOk(h, st, k);
    }
  }

  /** One call keeps tokens distinct exactly when it does not overflow. */
  lemma GenerateKeepsDistinctIff(h: Hasher, st: State, r: Request)
    requires h.Lawful() && r.Valid() && Distinct(h, st)
    ensures Distinct(h, Next(h, st, r)) <==> !Overflows(h, st, r)
  {
    if r.Key() !in st.seen {
      if Overflows(h, st, r) {
        OverflowShares(h, st, r);
      } else {
        NewTokenFresh(h, st, r);
        FreshKeepsDistinct(h, st, r);
      }
    }
  }

  // ---- Whole runs ----

  function After(h: Hasher, run: seq<Request>): State
    requires h.Lawful() && forall r | r in run :: r.Valid()
  {
    if run == [] then EMPTY else Next(h, After(h, run[..|run| - 1]), run[|run| - 1])
  }

  /** No call of the run overflows. */
  ghost predicate NoOverflow(h: Hasher, run: seq<Request>)
    requires h.Lawful() && forall r | r in run :: r.Valid()
  {
    run == [] || (NoOverflow(h, run[..|run| - 1]) && !Overflows(h, After(h, run[..|run| - 1]), run[|run| - 1]))
  }

  /** Tokens of a run are distinct as long as no call overflows. */
  lemma {:induction false} RunKeepsDistinct(h: Hasher, run: seq<Request>)
    requires h.Lawful() && forall r | r in run :: r.Valid()
    requires NoOverflow(h, run)
    ensures Distinct(h, After(h, run))
  {
    if run != [] {
      var front, last := run[..|run| - 1], run[|run| - 1];
      RunKeepsDistinct(h, front);
      GenerateKeepsDistinctIff(h, After(h, front), last);
    }
  }

  /** The token handed out for a request, once handed out, is what every later request gets. */
  lemma {:induction false} TokensAreStable(h: Hasher, run: seq<Request>, i: nat)
    requires h.Lawful() && i < |run| && forall r | r in run :: r.Valid()
    ensures var key := run[i].Key();
            && key in After(h, run).seen
            && After(h, run).seen[key] == Token(h, After(h, run[..i]), run[i])
  {
    var front := run[..|run| - 1];
    if i < |run| - 1 {
      TokensAreStable(h, front, i);
      assert front[..i] == run[..i];
    } else {
      assert run[..i] == front;
    }
  }

  /** Over a run without overflow two calls return the same token exactly when they ask for the same
      prefix and plaintext. */
  lemma TokensAreInjective(h: Hasher, run: seq<Request>, i: nat, j: nat)
    requires h.Lawful() && i < |run| && j < |run| && forall r | r in run :: r.Valid()
    requires NoOverflow(h, run)
    ensures Token(h, After(h, run[..i]), run[i]) == Token(h, After(h, run[..j]), run[j]) <==> run[i] == run[j]
  {
    RunKeepsDistinct(h, run);
    TokensAreStable(h, run, i);
    TokensAreStable(h, run, j);
    assert run[i] in run && run[j] in run;
    if run[i].Key() == run[j].Key() {
      KeyIsInjective(run[i], run[j]);
    }
  }

  lemma {:induction false} SeenKeysComeFromRun(h: Hasher, run: seq<Request>, k: string)
    requires h.Lawful() && forall r | r in run :: r.Valid()
    requires k in After(h, run).seen
    ensures exists i :: 0 <= i < |run| && run[i].Key() == k
  {
    if run != [] {
      var front, last := run[..|run| - 1], run[|run| - 1];
      if k in After(h, front).seen {
        SeenKeysComeFromRun(h, front, k);
        var i :| 0 <= i < |front| && front[i].Key() == k;
        assert run[i].Key() == k;
      } else {
        assert run[|run| - 1].Key() == k;
      }
    }
  }

  /** Different requests i and j get the same token. */
  ghost predicate Shares(h: Hasher, run: seq<Request>, i: nat, j: nat)
    requires h.Lawful() && forall r | r in run :: r.Valid()
  {
    && i < |run| && j < |run| && run[i] != run[j]
    && Token(h, After(h, run[..i]), run[i]) == Token(h, After(h, run[..j]), run[j])
  }

  lemma OverflowAtEnd(h: Hasher, front: seq<Request>, last: Request) returns (i: nat)
    requires h.Lawful() && last.Valid() && forall r | r in front :: r.Valid()
    requires NoOverflow(h, front) && Overflows(h, After(h, front), last)
    ensures i < |front| && front[i] != last
    ensures Token(h, After(h, front[..i]), front[i]) == Token(h, After(h, front), last)
  {
    var st := After(h, front);
    RunKeepsDistinct(h, front);
    OverflowShares(h, st, last);
    var k :| k in st.seen && k != last.Key() && st.seen[k] == Token(h, st, last);
    SeenKeysComeFromRun(h, front, k);
    i :| 0 <= i < |front| && front[i].Key() == k;
    TokensAreStable(h, front, i);
  }

  lemma SharesInLonger(h: Hasher, front: seq<Request>, last: Request, i: nat, j: nat)
    requires h.Lawful() && last.Valid() && (forall r | r in front :: r.Valid()) && Shares(h, front, i, j)
    ensures Shares(h, front + [last], i, j)
  {
    assert (front + [last])[..i] == front[..i] && (front + [last])[..j] == front[..j];
  }

  /** Any overflow makes two different requests share a token. */
  lemma {:induction false} OverflowMeansSharing(h: Hasher, run: seq<Request>) returns (i: nat, j: nat)
    requires h.Lawful() && forall r | r in run :: r.Valid()
    requires !NoOverflow(h, run)
    ensures Shares(h, run, i, j)
  {
    var front, last := run[..|run| - 1], run[|run| - 1];
    assert front + [last] == run;
    if NoOverflow(h, front) {
      i := OverflowAtEnd(h, front, last);
      j := |front|;
      assert run[..i] == front[..i] && run[..j] == front;
    } else {
      i, j := OverflowMeansSharing(h, front);
      SharesInLonger(h, front, last, i, j);
    }
  }

  /** The exact condition: no two different requests of a run share a token if and only if no call overflows. */
  lemma RunInjectiveIffNoOverflow(h: Hasher, run: seq<Request>)
    requires h.Lawful() && forall r | r in run :: r.Valid()
    ensures NoOverflow(h, run) <==> forall i: nat, j: nat :: !Shares(h, run, i, j)
  {
    if NoOverflow(h, run) {
      forall i: nat, j: nat
        ensures !Shares(h, run, i, j)
      {
        if i < |run| && j < |run| {
          TokensAreInjective(h, run, i, j);
        }
      }
    } else {
      var i, j := OverflowMeansSharing(h, run);
    }
  }

  // ---- When calls overflow ----

  /** The keys whose tokens are among the first n candidates of a base. */
  ghost function Holders(st: State, base: string, n: nat): set<string>
    requires n <= 26
  {
    set k | k in st.seen && exists i: nat :: i < n && st.seen[k] == Candidate(base, i)
  }

  lemma CandidatesDiffer(base: string, i: nat, j: nat)
    requires i < j < 26
    ensures Candidate(base, i) != Candidate(base, j)
  {
    if i > 0 {
      assert Candidate(base, i)[|base|] != Candidate(base, j)[|base|];
    }
  }

  lemma HolderOfCandidate(h: Hasher, st: State, base: string, plaintext: string, n: nat) returns (k: string)
    requires h.Lawful() && Distinct(h, st) && AllTaken(st, base, plaintext) && n < 26
    ensures k in Holders(st, base, n + 1) && k !in Holders(st, base, n)
  {
    var c := Candidate(base, n);
    assert !Free(st.used, c, plaintext);
    assert Owned(st, c);
    k :| k in st.seen && st.seen[k] == c;
    forall i: nat | i < n
      ensures Candidate(base, i) != c
    {
      CandidatesDiffer(base, i, n);
    }
  }

  lemma {:induction false} SubsetCardinality<T>(a: set<T>, b: set<T>)
    requires a <= b
    ensures |a| <= |b|
  {
    if a != {} {
      var x :| x in a;
      SubsetCardinality(a - {x}, b - {x});
    }
  }

  lemma OneMoreElement<T>(a: set<T>, b: set<T>, c: set<T>, x: T)
    requires a <= b <= c && x in c && x !in a
    ensures |a| + 1 <= |c|
  {
    SubsetCardinality(a + {x}, c);
  }

  lemma {:induction false} TakenCandidatesHaveHolders(h: Hasher, st: State, base: string, plaintext: string, n: nat)
    requires h.Lawful() && Distinct(h, st) && AllTaken(st, base, plaintext) && n <= 26
    ensures |Holders(st, base, n)| >= n
  {
    if n > 0 {
      TakenCandidatesHaveHolders(h, st, base, plaintext, n - 1);
      var k := HolderOfCandidate(h, st, base, plaintext, n - 1);
      assert Holders(st, base, n - 1) <= Holders(st, base, n);
      OneMoreElement(Holders(st, base, n - 1), Holders(st, base, n - 1), Holders(st, base, n), k);
    }
  }

  /** The keys a run asks for that share a base. */
  ghost function KeysWithBase(h: Hasher, run: seq<Request>, base: string): set<string>
    requires h.Lawful() && forall r | r in run :: r.Valid()
  {
    set r | r in run && Base(h, r) == base :: r.Key()
  }

  lemma HoldersAskedForBase(h: Hasher, run: seq<Request>, base: string)
    requires h.Lawful() && |base| == 8 && forall r | r in run :: r.Valid()
    requires Distinct(h, After(h, run))
    ensures Holders(After(h, run), base, 26) <= KeysWithBase(h, run, base)
  {
    var st := After(h, run);
    forall k | k in Holders(st, base, 26)
      ensures k in KeysWithBase(h, run, base)
    {
      assert KeyOk(h, st, k);
      var q: Request :| q.Valid() && q.Key() == k && st.seen[k][..8] == Base(h, q);
      SeenKeysComeFromRun(h, run, k);
      var i :| 0 <= i < |run| && run[i].Key() == k;
      KeyIsInjective(run[i], q);
      assert run[i] in run && Base(h, run[i]) == base;
    }
  }

  lemma LastKeyIsNew(h: Hasher, front: seq<Request>, last: Request)
    requires h.Lawful() && last.Valid() && forall r | r in front :: r.Valid()
    requires last.Key() !in After(h, front).seen
    ensures last.Key() !in Holders(After(h, front), Base(h, last), 26)
    ensures last.Key() in KeysWithBase(h, front + [last], Base(h, last))
    ensures KeysWithBase(h, front, Base(h, last)) <= KeysWithBase(h, front + [last], Base(h, last))
  {
    assert last in front + [last];
  }

  lemma FewMeansNoOverflow(h: Hasher, front: seq<Request>, last: Request)
    requires h.Lawful() && last.Valid() && forall r | r in front :: r.Valid()
    requires Distinct(h, After(h, front)) && |KeysWithBase(h, front + [last], Base(h, last))| <= 26
    ensures !Overflows(h, After(h, front), last)
  {
    var st, base := After(h, front), Base(h, last);
    if Overflows(h, st, last) {
      TakenCandidatesHaveHolders(h, st, base, last.plaintext, 26);
      HoldersAskedForBase(h, front, base);
      LastKeyIsNew(h, front, last);
      OneMoreElement(Holders(st, base, 26), KeysWithBase(h, front, base),
                     KeysWithBase(h, front + [last], base), last.Key());
    }
  }

  /** At most 26 distinct plaintexts per prefix and short hash: then no call overflows. */
  lemma {:induction false} FewPlaintextsPerHash(h: Hasher, run: seq<Request>)
    requires h.Lawful() && forall r | r in run :: r.Valid()
    requires forall r | r in run :: |KeysWithBase(h, run, Base(h, r))| <= 26
    ensures NoOverflow(h, run)
  {
    if run != [] {
      var front, last := run[..|run| - 1], run[|run| - 1];
      assert front + [last] == run;
      forall r | r in front
        ensures |KeysWithBase(h, front, Base(h, r))| <= 26
      {
        assert r in run;
        SubsetCardinality(KeysWithBase(h, front, Base(h, r)), KeysWithBase(h, run, Base(h, r)));
      }
      FewPlaintextsPerHash(h, front);
      RunKeepsDistinct(h, front);
      FewMeansNoOverflow(h, front, last);
    }
  }

  /** All tokens a base can give while its fallback is always f. */
  ghost function Pool(base: string, f: string, n: nat): set<string>
    requires n <= 26
  {
    if n == 0 then {f} else Pool(base, f, n - 1) + {Candidate(base, n - 1)}
  }

  lemma {:induction false} PoolHolds(base: string, f: string, n: nat, i: nat)
    requires n <= 26
    ensures |Pool(base, f, n)| <= n + 1 && f in Pool(base, f, n)
    ensures i < n ==> Candidate(base, i) in Pool(base, f, n)
  {
    if n > 0 {
      PoolHolds(base, f, n - 1, i);
    }
  }

  /** Every request of the run has this base and this fallback. */
  ghost predicate AllCollide(h: Hasher, run: seq<Request>, base: string, f: string)
    requires h.Lawful()
  {
    forall r | r in run :: r.Valid() && Base(h, r) == base && Fallback(h, base, r.plaintext) == f
  }

  lemma NewTokenFromPool(h: Hasher, st: State, r: Request, base: string, f: string)
    requires h.Lawful() && r.Valid() && Base(h, r) == base && Fallback(h, base, r.plaintext) == f
    ensures r.Key() !in st.seen ==> Token(h, st, r) in Pool(base, f, 26)
  {
    ResolveShape(h, st.used, base, r.plaintext, 0);
    var t := Resolve(h, st.used, base, r.plaintext, 0);
    PoolHolds(base, f, 26, 0);
    if i: nat :| i < 26 && t == Candidate(base, i) {
      PoolHolds(base, f, 26, i);
    }
  }

  lemma {:induction false} TokensComeFromPool(h: Hasher, run: seq<Request>, base: string, f: string)
    requires h.Lawful() && AllCollide(h, run, base, f)
    ensures forall k | k in After(h, run).seen :: After(h, run).seen[k] in Pool(base, f, 26)
  {
    if run != [] {
      var front, last := run[..|run| - 1], run[|run| - 1];
      TokensComeFromPool(h, front, base, f);
      NewTokenFromPool(h, After(h, front), last, base, f);
    }
  }

  lemma {:induction false} SeenCount(h: Hasher, run: seq<Request>)
    requires h.Lawful() && forall r | r in run :: r.Valid()
    requires forall i, j | 0 <= i < j < |run| :: run[i] != run[j]
    ensures |After(h, run).seen.Keys| == |run|
  {
    if run != [] {
      var front, last := run[..|run| - 1], run[|run| - 1];
      SeenCount(h, front);
      assert forall i | 0 <= i < |front| :: front[i] == run[i] && run[i] != run[|run| - 1];
      if last.Key() in After(h, front).seen {
        SeenKeysComeFromRun(h, front, last.Key());
        var i :| 0 <= i < |front| && front[i].Key() == last.Key();
        KeyIsInjective(front[i], last);
      }
      assert After(h, run).seen.Keys == After(h, front).seen.Keys + {last.Key()};
    }
  }

  lemma {:induction false} InjectiveIntoPool(m: map<string, string>, keys: set<string>, pool: set<string>)
    requires keys <= m.Keys && forall k | k in keys :: m[k] in pool
    requires forall k, l | k in keys && l in keys && m[k] == m[l] :: k == l
    ensures |keys| <= |pool|
    decreases keys
  {
    if keys != {} {
      var k :| k in keys;
      InjectiveIntoPool(m, keys - {k}, pool - {m[k]});
    }
  }

  /** The limit is real: when 28 different plaintexts agree on both hashes, some two share a token. */
  lemma ManyPlaintextsShare(h: Hasher, run: seq<Request>, base: string, f: string) returns (i: nat, j: nat)
    requires h.Lawful() && AllCollide(h, run, base, f) && |run| >= 28
    requires forall i, j | 0 <= i < j < |run| :: run[i] != run[j]
    ensures Shares(h, run, i, j)
  {
    if NoOverflow(h, run) {
      var st := After(h, run);
      RunKeepsDistinct(h, run);
      TokensComeFromPool(h, run, base, f);
      SeenCount(h, run);
      PoolHolds(base, f, 26, 0);
      InjectiveIntoPool(st.seen, st.seen.Keys, Pool(base, f, 26));
      assert false;
    }
    i, j := OverflowMeansSharing(h, run);
  }

  // ---- Such plaintexts exist ----

  lemma SomeElement(s: set<nat>) returns (x: nat)
    requires |s| > 0
    ensures x in s
  {
    x :| x in s;
  }

  ghost function InClass(s: set<nat>, f: nat -> nat, c: nat): set<nat> {
    set x | x in s && f(x) == c
  }

  lemma RestOfClasses(s: set<nat>, f: nat -> nat, n: nat, rest: set<nat>, c: nat)
    requires n > 0 && rest == s - InClass(s, f, n - 1)
    ensures |s| == |rest| + |InClass(s, f, n - 1)|
    ensures |InClass(rest, f, c)| <= |InClass(s, f, c)|
  {
    assert s == rest + InClass(s, f, n - 1);
    SubsetCardinality(InClass(rest, f, c), InClass(s, f, c));
  }

  lemma OneClassLess(k: nat, n: nat)
    requires n > 0
    ensures k * n == k * (n - 1) + k
  {
  }

  /** Spread over n classes, more than (m - 1) * n elements put m of them into one class. */
  lemma {:induction false} Pigeonhole(s: set<nat>, f: nat -> nat, n: nat, m: nat) returns (c: nat)
    requires m > 0 && |s| > (m - 1) * n && forall x | x in s :: f(x) < n
    ensures |InClass(s, f, c)| >= m
    decreases n
  {
    if n == 0 {
      var x := SomeElement(s);
      assert false;
    } else if |InClass(s, f, n - 1)| >= m {
      c := n - 1;
    } else {
      var rest := s - InClass(s, f, n - 1);
      OneClassLess(m - 1, n);
      RestOfClasses(s, f, n, rest, 0);
      c := Pigeonhole(rest, f, n - 1, m);
      RestOfClasses(s, f, n, rest, c);
    }
  }

  function UpTo(n: nat): (s: set<nat>)
    ensures |s| == n && forall x | x in s :: x < n
  {
    if n == 0 then {} else UpTo(n - 1) + {n - 1}
  }

  /** The elements of a set, each once. */
  lemma {:induction false} Listed(s: set<nat>) returns (xs: seq<nat>)
    ensures |xs| == |s| && (forall x | x in xs :: x in s) && forall i, j | 0 <= i < j < |xs| :: xs[i] != xs[j]
    decreases |s|
  {
    if s == {} {
      xs := [];
    } else {
      var x :| x in s;
      var rest := Listed(s - {x});
      xs := rest + [x];
      assert forall i | 0 <= i < |rest| :: rest[i] in rest;
    }
  }

  /** A plaintext of each length. */
  function Repeated(n: nat): (s: string)
    ensures |s| == n
  {
    seq(n, _ => 'a')
  }

  function Asked(prefix: string, n: nat): Request {
    Request(prefix, Repeated(n))
  }

  function ShortValue(h: Hasher, s: string): (v: nat)
    requires h.Lawful()
    ensures v < Pow36(4)
  {
    BigEndian(h.sha(s)[..4]) % Pow36(4)
  }

  lemma SameValueSameShort(h: Hasher, s: string, t: string)
    requires h.Lawful() && ShortValue(h, s) == ShortValue(h, t)
    ensures h.Short(s) == h.Short(t)
  {
    Base36OfRemainder(BigEndian(h.sha(s)[..4]), 4);
    Base36OfRemainder(BigEndian(h.sha(t)[..4]), 4);
  }

  lemma PairFits(a: nat, b: nat, m: nat)
    requires a < m && b < m
    ensures a * m + b < m * m
  {
    var rest: nat := m - (a + 1);
    assert m * m == (a + 1 + rest) * m == a * m + m + rest * m;
    assert rest * m >= 0;
  }

  /** Both hashes of a request as one number. */
  function HashPair(h: Hasher, prefix: string, n: nat): (v: nat)
    requires h.Lawful() && |prefix| == 3
    ensures v < Pow36(4) * Pow36(4)
  {
    var r := Asked(prefix, n);
    var first, second := ShortValue(h, h.requestId + r.plaintext), ShortValue(h, Base(h, r) + r.plaintext);
    PairFits(first, second, Pow36(4));
    first * Pow36(4) + second
  }

  lemma PairIsUnique(a: nat, b: nat, c: nat, d: nat, m: nat)
    requires b < m && d < m && a * m + b == c * m + d
    ensures a == c && b == d
  {
    RemaindersAgree(a, b, c, d, m);
    if a < c {
      assert (c - a) * m == 0;
      AtLeastOnce(c - a, m);
    } else if c < a {
      assert (a - c) * m == 0;
      AtLeastOnce(a - c, m);
    }
  }

  lemma SamePairCollides(h: Hasher, prefix: string, k: nat, n: nat)
    requires h.Lawful() && |prefix| == 3 && HashPair(h, prefix, k) == HashPair(h, prefix, n)
    ensures var q, r := Asked(prefix, k), Asked(prefix, n);
            Base(h, q) == Base(h, r) && Fallback(h, Base(h, q), q.plaintext) == Fallback(h, Base(h, r), r.plaintext)
  {
    var q, r := Asked(prefix, k), Asked(prefix, n);
    var p, s := h.requestId + q.plaintext, h.requestId + r.plaintext;
    PairIsUnique(ShortValue(h, p), ShortValue(h, Base(h, q) + q.plaintext),
                 ShortValue(h, s), ShortValue(h, Base(h, r) + r.plaintext), Pow36(4));
    SameValueSameShort(h, p, s);
    SameValueSameShort(h, Base(h, q) + q.plaintext, Base(h, r) + r.plaintext);
  }

  /** The requests for some plaintexts, in turn. */
  function RequestsFor(prefix: string, ns: seq<nat>): (run: seq<Request>)
    ensures |run| == |ns| && forall i | 0 <= i < |ns| :: run[i] == Asked(prefix, ns[i])
  {
    seq(|ns|, i requires 0 <= i < |ns| => Asked(prefix, ns[i]))
  }

  /** Some numbers, as many as asked for, fall into one class. */
  lemma SameClass(f: nat -> nat, n: nat, m: nat) returns (ns: seq<nat>)
    requires m > 0 && forall x :: f(x) < n
    ensures |ns| >= m && (forall i, j | 0 <= i < j < |ns| :: ns[i] != ns[j])
    ensures forall i | 0 <= i < |ns| :: f(ns[i]) == f(ns[0])
  {
    var all := UpTo((m - 1) * n + 1);
    var c := Pigeonhole(all, f, n, m);
    ns := Listed(InClass(all, f, c));
    forall i | 0 <= i < |ns|
      ensures f(ns[i]) == c
    {
      assert ns[i] in ns;
    }
  }

  /** Two different requests of the run, all for the prefix, get the same token. */
  ghost predicate SharingRun(h: Hasher, prefix: string, run: seq<Request>)
    requires h.Lawful()
  {
    && |prefix| == 3 && (forall r | r in run :: r.prefix == prefix)
    && exists i: nat, j: nat :: Shares(h, run, i, j)
  }

  /** Whatever the hash function is, for every prefix there is a run in which two different plaintexts get
      the same token. */
  lemma SomeRunShares(h: Hasher, prefix: string)
    requires h.Lawful() && |prefix| == 3
    ensures exists run :: SharingRun(h, prefix, run)
  {
    var ns := SameClass((n: nat) => HashPair(h, prefix, n), Pow36(4) * Pow36(4), 28);
    var run, first := RequestsFor(prefix, ns), Asked(prefix, ns[0]);
    var base := Base(h, first);
    forall r | r in run
      ensures r.Valid() && Base(h, r) == base && Fallback(h, base, r.plaintext) == Fallback(h, base, first.plaintext)
    {
      var i :| 0 <= i < |run| && run[i] == r;
      SamePairCollides(h, prefix, ns[i], ns[0]);
    }
    forall i, j | 0 <= i < j < |run|
      ensures run[i] != run[j]
    {
      assert |run[i].plaintext| == ns[i] && |run[j].plaintext| == ns[j];
    }
    var i, j := ManyPlaintextsShare(h, run, base, Fallback(h, base, first.plaintext));
    assert SharingRun(h, prefix, run);
  }
}
