/** Replacing what a scan found in a request body, match by match (body.rs).

    Format-preserving encryption is a parameter: it gives a ciphertext, or says why it cannot. */
module RequestBody {
  import opened Text
  import opened Utf8
  import opened Pii
  import opened Splice
  import HashTokens

  datatype Encryption = Ciphertext(text: string) | DomainTooSmall | OtherError

  datatype FailMode = Open | Closed

  datatype Config = Config(encrypt: PiiMatch -> Encryption, mode: FailMode, h: HashTokens.Hasher) {
    ghost predicate Lawful() {
      && h.Lawful()
      && forall m: PiiMatch | Valid(m.rawValue) && encrypt(m).Ciphertext? :: Valid(encrypt(m).text)
    }
  }

  // ---- What the configuration asks for ----

  /** The types that have a format to preserve. */
  predicate Structured(t: PiiType) {
    || t.CreditCard? || t.Ssn? || t.PhoneNumber? || t.Email? || t.ApiKey? || t.Ipv4Address? || t.Ipv6Address?
    || t.GpsCoordinate? || t.MacAddress? || t.Iban?
  }

  predicate Encrypts(cfg: Config, m: PiiMatch) {
    Structured(m.piiType) && cfg.encrypt(m).Ciphertext?
  }

  /** A type without a format to preserve, or, failing open, a value too short for its format. */
  predicate Hashes(cfg: Config, m: PiiMatch) {
    !Structured(m.piiType) || (cfg.mode == Open && cfg.encrypt(m) == DomainTooSmall)
  }

  predicate Redacts(cfg: Config, m: PiiMatch) {
    Structured(m.piiType) && cfg.mode == Closed && !cfg.encrypt(m).Ciphertext?
  }

  /** The one case in which plaintext is sent on. */
  predicate Forwards(cfg: Config, m: PiiMatch) {
    Structured(m.piiType) && cfg.mode == Open && cfg.encrypt(m) == OtherError
  }

  /** The response can be restored from it. */
  predicate Restorable(cfg: Config, m: PiiMatch) {
    Encrypts(cfg, m) || Hashes(cfg, m)
  }

  datatype Mapping = Mapping(piiType: PiiType, plaintext: string, ciphertext: string)

  // ---- What becomes of one match ----

  datatype Handling = Encrypt(text: string) | Hash | Redact | Forward

  predicate Fails(cfg: Config, m: PiiMatch) {
    Structured(m.piiType) && !cfg.encrypt(m).Ciphertext?
  }

  function HandlingOf(cfg: Config, m: PiiMatch): Handling {
    if !m.piiType.FpeEligible() then Hash
    else match cfg.encrypt(m)
      case Ciphertext(text) => Encrypt(text)
      case DomainTooSmall => if cfg.mode == Closed then Redact else Hash
      case OtherError => if cfg.mode == Closed then Redact else Forward
  }

  function Redacted(t: PiiType): string {
    "[REDACTED:" + t.DisplayName() + "]"
  }

  function RequestOf(m: PiiMatch): (r: HashTokens.Request)
    ensures r.Valid()
  {
    HashTokens.Request(m.piiType.HashTokenPrefix(), m.rawValue)
  }

  datatype Outcome = Outcome(
    tokens: HashTokens.State, mappings: map<string, Mapping>, replacements: seq<Replacement>, unprotected: nat)

  function Recorded(o: Outcome, m: PiiMatch, text: string, tokens: HashTokens.State): Outcome {
    o.(tokens := tokens, mappings := o.mappings[text := Mapping(m.piiType, m.rawValue, text)],
       replacements := o.replacements + [Replacement(m, text)])
  }

  function Step(cfg: Config, o: Outcome, m: PiiMatch): Outcome
    requires cfg.h.Lawful()
  {
    match HandlingOf(cfg, m)
    case Encrypt(text) => Recorded(o, m, text, o.tokens)
    case Hash =>
      var r := RequestOf(m);
      Recorded(o, m, HashTokens.Token(cfg.h, o.tokens, r), HashTokens.Next(cfg.h, o.tokens, r))
    case Redact =>
      o.(replacements := o.replacements + [Replacement(m, Redacted(m.piiType))], unprotected := o.unprotected + 1)
    case Forward => o.(unprotected := o.unprotected + 1)
  }

  function Run(cfg: Config, matches: seq<PiiMatch>): Outcome
    requires cfg.h.Lawful()
  {
    if matches == [] then Outcome(HashTokens.EMPTY, map[], [], 0)
    else Step(cfg, Run(cfg, matches[..|matches| - 1]), matches[|matches| - 1])
  }

  lemma RunSnoc(cfg: Config, front: seq<PiiMatch>, m: PiiMatch)
    requires cfg.h.Lawful()
    ensures Run(cfg, front + [m]) == Step(cfg, Run(cfg, front), m)
  {
    assert (front + [m])[..|front|] == front;
  }

  /** The text a match is replaced with, unless it is forwarded. */
  function NewText(cfg: Config, tokens: HashTokens.State, m: PiiMatch): string
    requires cfg.h.Lawful()
  {
    if Encrypts(cfg, m) then cfg.encrypt(m).text
    else if Hashes(cfg, m) then HashTokens.Token(cfg.h, tokens, RequestOf(m))
    else if Redacts(cfg, m) then Redacted(m.piiType)
    else m.rawValue
  }

  lemma StepAdds(cfg: Config, o: Outcome, m: PiiMatch)
    requires cfg.h.Lawful()
    ensures var text := NewText(cfg, o.tokens, m);
            && Step(cfg, o, m).replacements
               == o.replacements + (if Forwards(cfg, m) then [] else [Replacement(m, text)])
            && Step(cfg, o, m).mappings
               == if Restorable(cfg, m) then o.mappings[text := Mapping(m.piiType, m.rawValue, text)] else o.mappings
  {
  }

  // ---- The loop over the matches ----

  /** One match: the maps, the list and the counter after it. */
  method ReplaceMatch(cfg: Config, generator: HashTokens.TokenGenerator, m: PiiMatch,
                      mappings: map<string, Mapping>, replacements: seq<Replacement>, unprotected: nat)
    returns (newMappings: map<string, Mapping>, newReplacements: seq<Replacement>, newUnprotected: nat)
    requires cfg.h.Lawful() && generator.h == cfg.h
    modifies generator
    ensures Outcome(generator.Contents(), newMappings, newReplacements, newUnprotected)
            == Step(cfg, Outcome(old(generator.Contents()), mappings, replacements, unprotected), m)
  {
    newMappings, newReplacements, newUnprotected := mappings, replacements, unprotected;
    if m.piiType.FpeEligible() {
      var result := cfg.encrypt(m);
      if result.Ciphertext? {
        newMappings := newMappings[result.text := Mapping(m.piiType, m.rawValue, result.text)];
        newReplacements := newReplacements + [Replacement(m, result.text)];
      } else {
        newUnprotected := newUnprotected + 1;
        if cfg.mode == Closed {
          newReplacements := newReplacements + [Replacement(m, Redacted(m.piiType))];
        } else if result.DomainTooSmall? {
          var token := generator.Generate(m.piiType, m.rawValue);
          newMappings := newMappings[token := Mapping(m.piiType, m.rawValue, token)];
          newReplacements := newReplacements + [Replacement(m, token)];
          newUnprotected := newUnprotected - 1;
        }
      }
    } else {
      var token := generator.Generate(m.piiType, m.rawValue);
      newMappings := newMappings[token := Mapping(m.piiType, m.rawValue, token)];
      newReplacements := newReplacements + [Replacement(m, token)];
    }
  }

  method ReplaceMatches(cfg: Config, matches: seq<PiiMatch>)
    returns (mappings: map<string, Mapping>, replacements: seq<Replacement>, unprotected: nat)
    requires cfg.h.Lawful()
    ensures var o := Run(cfg, matches);
            mappings == o.mappings && replacements == o.replacements && unprotected == o.unprotected
  {
    var generator := new HashTokens.TokenGenerator(cfg.h);
    mappings, replacements, unprotected := map[], [], 0;
    for k := 0 to |matches|
      invariant fresh(generator) && generator.h == cfg.h
      invariant Outcome(generator.Contents(), mappings, replacements, unprotected) == Run(cfg, matches[..k])
    {
      RunSnoc(cfg, matches[..k], matches[k]);
      assert matches[..k + 1] == matches[..k] + [matches[k]];
      mappings, replacements, unprotected :=
        ReplaceMatch(cfg, generator, matches[k], mappings, replacements, unprotected);
    }
    assert matches[..|matches|] == matches;
  }

  // ---- Accounting ----

  function Kept(cfg: Config, matches: seq<PiiMatch>): seq<PiiMatch> {
    if matches == [] then []
    else
      var m := matches[|matches| - 1];
      Kept(cfg, matches[..|matches| - 1]) + if Forwards(cfg, m) then [] else [m]
  }

  function Failures(cfg: Config, matches: seq<PiiMatch>): nat {
    if matches == [] then 0
    else Failures(cfg, matches[..|matches| - 1]) + if Fails(cfg, matches[|matches| - 1]) then 1 else 0
  }

  function Originals(rs: seq<Replacement>): (ms: seq<PiiMatch>)
    ensures |ms| == |rs| && forall k | 0 <= k < |rs| :: ms[k] == rs[k].original
  {
    seq(|rs|, k requires 0 <= k < |rs| => rs[k].original)
  }

  lemma OriginalsConcat(a: seq<Replacement>, b: seq<Replacement>)
    ensures Originals(a + b) == Originals(a) + Originals(b)
  {
  }

  /** The replacements are those of the matches that are not forwarded, in the order of the matches. */
  lemma {:induction false} ReplacementsKeepOrder(cfg: Config, matches: seq<PiiMatch>)
    requires cfg.h.Lawful()
    ensures Originals(Run(cfg, matches).replacements) == Kept(cfg, matches)
    decreases |matches|
  {
    if matches != [] {
      var front, m := matches[..|matches| - 1], matches[|matches| - 1];
      ReplacementsKeepOrder(cfg, front);
      StepAdds(cfg, Run(cfg, front), m);
      OriginalsConcat(Run(cfg, front).replacements, if Forwards(cfg, m) then [] else
                        [Replacement(m, NewText(cfg, Run(cfg, front).tokens, m))]);
    }
  }

  lemma KeptSnoc(cfg: Config, front: seq<PiiMatch>, m: PiiMatch)
    ensures Kept(cfg, front + [m]) == Kept(cfg, front) + if Forwards(cfg, m) then [] else [m]
  {
    assert (front + [m])[..|front|] == front;
  }

  lemma {:induction false} ClosedKeepsAll(cfg: Config, matches: seq<PiiMatch>)
    requires cfg.mode == Closed
    ensures Kept(cfg, matches) == matches
    decreases |matches|
  {
    if matches != [] {
      var front, last := matches[..|matches| - 1], matches[|matches| - 1];
      assert matches == front + [last];
      KeptSnoc(cfg, front, last);
      ClosedKeepsAll(cfg, front);
    }
  }

  lemma {:induction false} ClosedCountsFailures(cfg: Config, matches: seq<PiiMatch>)
    requires cfg.h.Lawful() && cfg.mode == Closed
    ensures Run(cfg, matches).unprotected == Failures(cfg, matches)
    decreases |matches|
  {
    if matches != [] {
      ClosedCountsFailures(cfg, matches[..|matches| - 1]);
    }
  }

  /** Failing closed, every match is replaced, and the counter counts the failed encryptions although
      none of those values is left unprotected. */
  lemma ClosedReplacesAll(cfg: Config, matches: seq<PiiMatch>)
    requires cfg.h.Lawful() && cfg.mode == Closed
    ensures Originals(Run(cfg, matches).replacements) == matches
    ensures Run(cfg, matches).unprotected == Failures(cfg, matches)
  {
    ReplacementsKeepOrder(cfg, matches);
    ClosedKeepsAll(cfg, matches);
    ClosedCountsFailures(cfg, matches);
  }

  /** Failing open, what is left without a replacement is exactly what the counter says. */
  lemma {:induction false} OpenCountsForwarded(cfg: Config, matches: seq<PiiMatch>)
    requires cfg.h.Lawful() && cfg.mode == Open
    ensures |Kept(cfg, matches)| + Run(cfg, matches).unprotected == |matches|
    decreases |matches|
  {
    if matches != [] {
      OpenCountsForwarded(cfg, matches[..|matches| - 1]);
    }
  }

  /** The counter is the number of matches forwarded in plaintext, as its documentation says, if and only
      if the proxy fails open or no encryption fails. */
  lemma CounterMeansPlaintextIff(cfg: Config, matches: seq<PiiMatch>)
    requires cfg.h.Lawful()
    ensures Run(cfg, matches).unprotected == |matches| - |Run(cfg, matches).replacements|
            <==> cfg.mode == Open || Failures(cfg, matches) == 0
  {
    ReplacementsKeepOrder(cfg, matches);
    if cfg.mode == Open {
      OpenCountsForwarded(cfg, matches);
    } else {
      ClosedReplacesAll(cfg, matches);
    }
  }

  // ---- What each match is replaced with ----

  /** What the token generator is asked, in turn. */
  function Requests(cfg: Config, matches: seq<PiiMatch>): (rs: seq<HashTokens.Request>)
    ensures forall r | r in rs :: r.Valid()
  {
    if matches == [] then []
    else
      var m := matches[|matches| - 1];
      Requests(cfg, matches[..|matches| - 1]) + if Hashes(cfg, m) then [RequestOf(m)] else []
  }

  lemma RequestsSnoc(cfg: Config, front: seq<PiiMatch>, m: PiiMatch)
    ensures Requests(cfg, front + [m]) == Requests(cfg, front) + if Hashes(cfg, m) then [RequestOf(m)] else []
  {
    assert (front + [m])[..|front|] == front;
  }

  lemma AfterSnoc(h: HashTokens.Hasher, front: seq<HashTokens.Request>, r: HashTokens.Request)
    requires h.Lawful() && r.Valid() && forall q | q in front :: q.Valid()
    ensures forall q | q in front + [r] :: q.Valid()
    ensures HashTokens.After(h, front + [r]) == HashTokens.Next(h, HashTokens.After(h, front), r)
  {
    assert (front + [r])[..|front|] == front;
  }

  lemma TokensOfStep(cfg: Config, o: Outcome, m: PiiMatch)
    requires cfg.h.Lawful()
    ensures Step(cfg, o, m).tokens
            == if Hashes(cfg, m) then HashTokens.Next(cfg.h, o.tokens, RequestOf(m)) else o.tokens
  {
  }

  lemma TokensStep(cfg: Config, front: seq<PiiMatch>, m: PiiMatch)
    requires cfg.h.Lawful() && Run(cfg, front).tokens == HashTokens.After(cfg.h, Requests(cfg, front))
    ensures Run(cfg, front + [m]).tokens == HashTokens.After(cfg.h, Requests(cfg, front + [m]))
  {
    RequestsSnoc(cfg, front, m);
    RunSnoc(cfg, front, m);
    TokensOfStep(cfg, Run(cfg, front), m);
    if Hashes(cfg, m) {
      AfterSnoc(cfg.h, Requests(cfg, front), RequestOf(m));
    } else {
      assert Requests(cfg, front + [m]) == Requests(cfg, front);
    }
  }

  /** The generator is in the state its requests led to. */
  lemma {:induction false} TokensAreOfRun(cfg: Config, matches: seq<PiiMatch>)
    requires cfg.h.Lawful()
    ensures Run(cfg, matches).tokens == HashTokens.After(cfg.h, Requests(cfg, matches))
    decreases |matches|
  {
    if matches != [] {
      var front, m := matches[..|matches| - 1], matches[|matches| - 1];
      TokensAreOfRun(cfg, front);
      TokensStep(cfg, front, m);
      assert matches == front + [m];
    }
  }

  function TextOf(cfg: Config, matches: seq<PiiMatch>, k: nat): string
    requires cfg.h.Lawful() && k < |matches|
  {
    NewText(cfg, HashTokens.After(cfg.h, Requests(cfg, matches[..k])), matches[k])
  }

  lemma RunStep(cfg: Config, matches: seq<PiiMatch>, k: nat)
    requires cfg.h.Lawful() && k < |matches|
    ensures Run(cfg, matches[..k + 1]) == Step(cfg, Run(cfg, matches[..k]), matches[k])
    ensures TextOf(cfg, matches, k) == NewText(cfg, Run(cfg, matches[..k]).tokens, matches[k])
  {
    TokensAreOfRun(cfg, matches[..k]);
    RunSnoc(cfg, matches[..k], matches[k]);
    assert matches[..k + 1] == matches[..k] + [matches[k]];
  }

  lemma RunReplaces(cfg: Config, matches: seq<PiiMatch>, k: nat)
    requires cfg.h.Lawful() && k < |matches|
    ensures Run(cfg, matches[..k + 1]).replacements
            == Run(cfg, matches[..k]).replacements
               + if Forwards(cfg, matches[k]) then [] else [Replacement(matches[k], TextOf(cfg, matches, k))]
  {
    RunStep(cfg, matches, k);
    StepAdds(cfg, Run(cfg, matches[..k]), matches[k]);
  }

  lemma RunRecords(cfg: Config, matches: seq<PiiMatch>, k: nat, text: string)
    requires cfg.h.Lawful() && k < |matches| && text == TextOf(cfg, matches, k)
    ensures Run(cfg, matches[..k + 1]).mappings
            == if Restorable(cfg, matches[k])
               then Run(cfg, matches[..k]).mappings[text := Mapping(matches[k].piiType, matches[k].rawValue, text)]
               else Run(cfg, matches[..k]).mappings
  {
    RunStep(cfg, matches, k);
    StepAdds(cfg, Run(cfg, matches[..k]), matches[k]);
  }

  /** The replacement of a match stands where the number of kept matches before it says. */
  lemma {:induction false} ReplacementOfMatch(cfg: Config, matches: seq<PiiMatch>, k: nat)
    requires cfg.h.Lawful() && k < |matches| && !Forwards(cfg, matches[k])
    ensures var at := |Kept(cfg, matches[..k])|;
            && at < |Run(cfg, matches).replacements|
            && Run(cfg, matches).replacements[at] == Replacement(matches[k], TextOf(cfg, matches, k))
    decreases |matches|
  {
    var n := |matches| - 1;
    assert matches[..n + 1] == matches;
    RunReplaces(cfg, matches, n);
    if k == n {
      ReplacementsKeepOrder(cfg, matches[..k]);
    } else {
      var front := matches[..n];
      ReplacementOfMatch(cfg, front, k);
      assert front[..k] == matches[..k] && TextOf(cfg, front, k) == TextOf(cfg, matches, k);
    }
  }

  /** The new text is the ciphertext, the redaction, or the token handed out for the prefix and the value. */
  ghost predicate TextIsOf(cfg: Config, tokens: HashTokens.State, r: Replacement) {
    var m := r.original;
    var key := HashTokens.Request(m.piiType.HashTokenPrefix(), m.rawValue).Key();
    if Structured(m.piiType) && cfg.encrypt(m).Ciphertext? then r.encrypted == cfg.encrypt(m).text
    else if Structured(m.piiType) && cfg.mode == Closed then
      r.encrypted == "[REDACTED:" + m.piiType.DisplayName() + "]"
    else key in tokens.seen && r.encrypted == tokens.seen[key]
  }

  lemma NextKeepsTexts(cfg: Config, st: HashTokens.State, q: HashTokens.Request, r: Replacement)
    requires cfg.h.Lawful() && q.Valid() && TextIsOf(cfg, st, r)
    ensures TextIsOf(cfg, HashTokens.Next(cfg.h, st, q), r)
  {
  }

  lemma StepGivesTexts(cfg: Config, o: Outcome, m: PiiMatch)
    requires cfg.h.Lawful() && forall r | r in o.replacements :: TextIsOf(cfg, o.tokens, r)
    ensures forall r | r in Step(cfg, o, m).replacements :: TextIsOf(cfg, Step(cfg, o, m).tokens, r)
  {
    var next := Step(cfg, o, m);
    StepAdds(cfg, o, m);
    TokensOfStep(cfg, o, m);
    forall r | r in next.replacements
      ensures TextIsOf(cfg, next.tokens, r)
    {
      if r in o.replacements {
        if Hashes(cfg, m) {
          NextKeepsTexts(cfg, o.tokens, RequestOf(m), r);
        }
      } else {
        assert r == Replacement(m, NewText(cfg, o.tokens, m));
      }
    }
  }

  lemma {:induction false} RunGivesTexts(cfg: Config, matches: seq<PiiMatch>)
    requires cfg.h.Lawful()
    ensures forall r | r in Run(cfg, matches).replacements :: TextIsOf(cfg, Run(cfg, matches).tokens, r)
    decreases |matches|
  {
    if matches != [] {
      RunGivesTexts(cfg, matches[..|matches| - 1]);
      StepGivesTexts(cfg, Run(cfg, matches[..|matches| - 1]), matches[|matches| - 1]);
    }
  }

  lemma {:induction false} KeptIff(cfg: Config, matches: seq<PiiMatch>, m: PiiMatch)
    ensures m in Kept(cfg, matches) <==> m in matches && !Forwards(cfg, m)
    decreases |matches|
  {
    if matches != [] {
      var front, last := matches[..|matches| - 1], matches[|matches| - 1];
      KeptIff(cfg, front, m);
      assert matches == front + [last];
    }
  }

  lemma OriginalsHave(rs: seq<Replacement>, m: PiiMatch)
    ensures m in Originals(rs) <==> exists r :: r in rs && r.original == m
  {
    if m in Originals(rs) {
      var k :| 0 <= k < |rs| && Originals(rs)[k] == m;
      assert rs[k] in rs;
    }
    if r :| r in rs && r.original == m {
      var k :| 0 <= k < |rs| && rs[k] == r;
      assert Originals(rs)[k] == m;
    }
  }

  /** Over any run: a match has no replacement, so that its plaintext is sent on, if and only if its type has a
      format to preserve, the proxy fails open and encryption fails for another reason than a value too
      short. Every replacement has the ciphertext if there is one, failing closed the redaction if there is
      none, and otherwise the token the generator has for the prefix of the type and the value. */
  lemma WhatIsSent(cfg: Config, matches: seq<PiiMatch>, m: PiiMatch)
    requires cfg.h.Lawful() && m in matches
    ensures (forall r | r in Run(cfg, matches).replacements :: r.original != m)
            <==> Structured(m.piiType) && cfg.mode == Open && cfg.encrypt(m) == OtherError
    ensures forall r | r in Run(cfg, matches).replacements :: TextIsOf(cfg, Run(cfg, matches).tokens, r)
  {
    ReplacementsKeepOrder(cfg, matches);
    KeptIff(cfg, matches, m);
    OriginalsHave(Run(cfg, matches).replacements, m);
    RunGivesTexts(cfg, matches);
  }

  /** Tokens tell types apart by their prefixes, all but those without one of their own; redactions tell all. */
  lemma TypesTellApart(a: PiiType, b: PiiType)
    ensures a.HashTokenPrefix() == b.HashTokenPrefix() ==> a == b || a.HashTokenPrefix() == "RED"
    ensures Redacted(a) == Redacted(b) ==> a == b
  {
    var x, y := a.DisplayName(), b.DisplayName();
    if Redacted(a) == Redacted(b) {
      assert Redacted(a)[10..10 + |x|] == x && Redacted(b)[10..10 + |y|] == y;
      assert |x| == |y| && x[0] == y[0] && (|x| > 3 ==> x[3] == y[3]);
    }
  }

  lemma {:induction false} RequestOfMatch(cfg: Config, matches: seq<PiiMatch>, k: nat)
    requires k < |matches| && Hashes(cfg, matches[k])
    ensures var all, before := Requests(cfg, matches), Requests(cfg, matches[..k]);
            |before| < |all| && all[|before|] == RequestOf(matches[k]) && all[..|before|] == before
    decreases |matches|
  {
    var front, last := matches[..|matches| - 1], matches[|matches| - 1];
    assert matches == front + [last];
    RequestsSnoc(cfg, front, last);
    if k < |front| {
      RequestOfMatch(cfg, front, k);
      assert front[..k] == matches[..k];
      var before := Requests(cfg, matches[..k]);
      assert Requests(cfg, matches)[..|before|] == Requests(cfg, front)[..|before|];
    } else {
      assert matches[..k] == front;
    }
  }

  /** Two matches redacted with tokens get the same token exactly when they have the same type prefix and
      value, as long as the generator does not overflow. */
  lemma SameTokenIffSameValue(cfg: Config, matches: seq<PiiMatch>, i: nat, j: nat)
    requires cfg.h.Lawful() && i < |matches| && j < |matches|
    requires Hashes(cfg, matches[i]) && Hashes(cfg, matches[j])
    requires HashTokens.NoOverflow(cfg.h, Requests(cfg, matches))
    ensures TextOf(cfg, matches, i) == TextOf(cfg, matches, j) <==> RequestOf(matches[i]) == RequestOf(matches[j])
  {
    RequestOfMatch(cfg, matches, i);
    RequestOfMatch(cfg, matches, j);
    var all := Requests(cfg, matches);
    HashTokens.TokensAreInjective(cfg.h, all, |Requests(cfg, matches[..i])|, |Requests(cfg, matches[..j])|);
  }

  // ---- What the response can be restored from ----

  /** Of the first n, number k is the last one that was given the text. */
  ghost predicate LastGiven(given: nat -> Option<string>, n: nat, text: string, k: nat) {
    k < n && given(k) == Some(text) && forall j: nat | k < j < n :: given(j) != Some(text)
  }

  ghost predicate Records(known: nat -> map<string, Mapping>, given: nat -> Option<string>, value: nat -> Mapping,
                          n: nat) {
    && known(0) == map[]
    && forall i: nat | i < n ::
         known(i + 1) == match given(i) case None => known(i) case Some(t) => known(i)[t := value(i)]
  }

  lemma LastMore(given: nat -> Option<string>, n: nat, text: string, k: nat)
    ensures LastGiven(given, n + 1, text, k)
            <==> if given(n) == Some(text) then k == n else LastGiven(given, n, text, k)
  {
  }

  /** In a map that is written step by step, the last write to a key counts. */
  lemma {:induction false} LastWriteCounts(known: nat -> map<string, Mapping>, given: nat -> Option<string>,
                                           value: nat -> Mapping, n: nat, text: string)
    requires Records(known, given, value, n)
    ensures text in known(n) <==> exists k: nat :: LastGiven(given, n, text, k)
    ensures forall k: nat | LastGiven(given, n, text, k) :: text in known(n) && known(n)[text] == value(k)
  {
    if n > 0 {
      var i: nat := n - 1;
      LastWriteCounts(known, given, value, i, text);
      assert known(i + 1) == match given(i) case None => known(i) case Some(t) => known(i)[t := value(i)];
      forall k: nat
        ensures LastGiven(given, n, text, k)
                <==> if given(i) == Some(text) then k == i else LastGiven(given, i, text, k)
      {
        LastMore(given, i, text, k);
      }
    }
  }

  lemma {:induction false} SomeoneIsLast(given: nat -> Option<string>, n: nat, text: string, k: nat)
    returns (last: nat)
    requires k < n && given(k) == Some(text)
    ensures LastGiven(given, n, text, last)
  {
    if given(n - 1) == Some(text) {
      last := n - 1;
    } else {
      last := SomeoneIsLast(given, n - 1, text, k);
    }
  }

  /** The new value a match was given and can be restored from, by number. */
  function GivenTo(cfg: Config, matches: seq<PiiMatch>): nat -> Option<string>
    requires cfg.h.Lawful()
  {
    (k: nat) => if k < |matches| && Restorable(cfg, matches[k]) then Some(TextOf(cfg, matches, k)) else None
  }

  function MappingOf(cfg: Config, matches: seq<PiiMatch>, k: nat): Mapping
    requires cfg.h.Lawful() && k < |matches|
  {
    Mapping(matches[k].piiType, matches[k].rawValue, TextOf(cfg, matches, k))
  }

  lemma RunIsRecord(cfg: Config, matches: seq<PiiMatch>, known: nat -> map<string, Mapping>, value: nat -> Mapping)
    requires cfg.h.Lawful()
    requires forall k: nat | k <= |matches| :: known(k) == Run(cfg, matches[..k]).mappings
    requires forall k: nat | k < |matches| :: value(k) == MappingOf(cfg, matches, k)
    ensures Records(known, GivenTo(cfg, matches), value, |matches|)
  {
    assert matches[..0] == [];
    forall i: nat | i < |matches|
      ensures known(i + 1)
              == match GivenTo(cfg, matches)(i) case None => known(i) case Some(t) => known(i)[t := value(i)]
    {
      RunRecords(cfg, matches, i, TextOf(cfg, matches, i));
    }
  }

  /** Exactly the new values given out are known, and each maps back to the last match it was given to. */
  lemma MappingsExactly(cfg: Config, matches: seq<PiiMatch>, text: string)
    requires cfg.h.Lawful()
    ensures var known, n := Run(cfg, matches).mappings, |matches|;
            && (text in known <==> exists k: nat :: LastGiven(GivenTo(cfg, matches), n, text, k))
            && forall k: nat | LastGiven(GivenTo(cfg, matches), n, text, k) ::
                 text in known && known[text] == MappingOf(cfg, matches, k)
  {
    var n := |matches|;
    var known := (k: nat) => if k <= n then Run(cfg, matches[..k]).mappings else map[];
    var value := (k: nat) => if k < n then MappingOf(cfg, matches, k) else Mapping(Person, "", "");
    RunIsRecord(cfg, matches, known, value);
    LastWriteCounts(known, GivenTo(cfg, matches), value, n, text);
    assert matches[..n] == matches;
  }

  /** The new value of a match maps back to the value it replaced if and only if the last match that was given
      the same new value has the same type and value. */
  lemma MappingIsLatest(cfg: Config, matches: seq<PiiMatch>, k: nat) returns (last: nat)
    requires cfg.h.Lawful() && k < |matches| && Restorable(cfg, matches[k])
    ensures var known, text := Run(cfg, matches).mappings, TextOf(cfg, matches, k);
            && LastGiven(GivenTo(cfg, matches), |matches|, text, last) && last < |matches|
            && text in known && known[text] == Mapping(matches[last].piiType, matches[last].rawValue, text)
            && (known[text] == Mapping(matches[k].piiType, matches[k].rawValue, text)
                <==> matches[last].piiType == matches[k].piiType && matches[last].rawValue == matches[k].rawValue)
  {
    var text := TextOf(cfg, matches, k);
    last := SomeoneIsLast(GivenTo(cfg, matches), |matches|, text, k);
    MappingsExactly(cfg, matches, text);
  }
}
