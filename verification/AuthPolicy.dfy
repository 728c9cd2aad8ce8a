// Token-scoped authorization: the builder that accepts or rejects an auth policy, the scan that
// maps a bearer token to a capability, and the reload that keeps the last good policy. The
// digest is an arbitrary function of the token.

module Bearer {
  import opened Prelude
  import opened Text

  /** Printable, non-space ASCII. */
  predicate IsGraphic(c: char) {
    '!' <= c <= '~'
  }

  predicate AllGraphic(s: string) {
    forall c | c in s :: IsGraphic(c)
  }

  /** `HeaderValue::to_str` on a value given byte by byte: visible ASCII, spaces and tabs only. */
  function ToStr(value: string): Option<string> {
    if forall c | c in value :: ' ' <= c <= '~' || c == '\t' then Some(value) else None
  }

  function LowerAscii(s: string): string {
    if s == "" then "" else [if 'A' <= s[0] <= 'Z' then s[0] + 32 as char else s[0]] + LowerAscii(s[1..])
  }

  predicate IsBearer(scheme: string) {
    LowerAscii(scheme) == "bearer"
  }

  predicate IsAsciiWhitespace(c: char) {
    c == ' ' || c == '\t' || c == '\n' || c == '\U{0C}' || c == '\r'
  }

  /** `bearer_token`, from all the `Authorization` values of a request. */
  function BearerToken(values: seq<string>): Option<string> {
    if values == [] then None
    else
      match ToStr(values[0])
      case None => None
      case Some(raw) =>
        if |values| > 1 then None
        else
          match SplitOnce(raw, ' ')
          case None => None
          case Some((scheme, token)) =>
            if !IsBearer(scheme) || token == "" || exists c | c in token :: IsAsciiWhitespace(c) then None
            else Some(token)
  }

  lemma {:induction false} LowerKeepsSpaces(s: string)
    ensures |LowerAscii(s)| == |s|
    ensures forall k | 0 <= k < |s| :: ' ' <= LowerAscii(s)[k] <= '~' <==> ' ' <= s[k] <= '~'
    ensures forall k | 0 <= k < |s| :: LowerAscii(s)[k] == ' ' <==> s[k] == ' '
  {
    if s != "" {
      LowerKeepsSpaces(s[1..]);
    }
  }

  lemma SchemeShape(scheme: string)
    requires IsBearer(scheme)
    ensures ' ' !in scheme && forall c | c in scheme :: ' ' <= c <= '~'
  {
    LowerKeepsSpaces(scheme);
    forall k | 0 <= k < |scheme| ensures ' ' < scheme[k] <= '~' {
      assert "bearer"[k] != ' ';
    }
  }

  ghost predicate CarriesToken(values: seq<string>, scheme: string, token: string) {
    IsBearer(scheme) && token != "" && AllGraphic(token) && values == [scheme + " " + token]
  }

  /**
   * A token is read exactly from a single header made of a scheme that is "Bearer" up to ASCII
   * case, one space, and a non-empty token of printable non-space ASCII.
   */
  lemma BearerExactly(values: seq<string>, token: string)
    ensures BearerToken(values) == Some(token) <==> exists scheme :: CarriesToken(values, scheme, token)
  {
    if BearerToken(values) == Some(token) {
      var raw := values[0];
      var (scheme, rest) := SplitOnce(raw, ' ').value;
      assert values == [raw];
      assert forall c | c in token :: c in raw;
      assert CarriesToken(values, scheme, token);
    }
    if scheme :| CarriesToken(values, scheme, token) {
      SchemeShape(scheme);
      SplitOnceAt(scheme, ' ', token);
      assert ToStr(scheme + " " + token) == Some(scheme + " " + token);
    }
  }

  /** The scheme is the six letters of "Bearer" in any mixture of cases, and nothing else. */
  lemma BearerInAnyCase(scheme: string)
    ensures IsBearer(scheme) <==>
            && |scheme| == 6
            && (scheme[0] == 'B' || scheme[0] == 'b') && (scheme[1] == 'E' || scheme[1] == 'e')
            && (scheme[2] == 'A' || scheme[2] == 'a') && (scheme[3] == 'R' || scheme[3] == 'r')
            && (scheme[4] == 'E' || scheme[4] == 'e') && (scheme[5] == 'R' || scheme[5] == 'r')
  {
    LowerExactly(scheme);
    var lower := LowerAscii(scheme);
    if |scheme| == 6 {
      assert lower == "bearer" <==>
             lower[0] == 'b' && lower[1] == 'e' && lower[2] == 'a' && lower[3] == 'r' && lower[4] == 'e' && lower[5] == 'r';
    }
  }

  lemma {:induction false} LowerExactly(s: string)
    ensures |LowerAscii(s)| == |s|
    ensures forall k | 0 <= k < |s| :: LowerAscii(s)[k] == if 'A' <= s[k] <= 'Z' then s[k] + 32 as char else s[k]
  {
    if s != "" {
      LowerExactly(s[1..]);
    }
  }

  lemma PlainBearer(token: string)
    requires token != "" && AllGraphic(token)
    ensures BearerToken(["Bearer " + token]) == Some(token)
  {
    BearerInAnyCase("Bearer");
    assert "Bearer " + token == "Bearer" + " " + token;
    assert CarriesToken(["Bearer " + token], "Bearer", token);
    BearerExactly(["Bearer " + token], token);
  }
}

module AuthPolicy {
  import opened Prelude
  import opened Text
  import opened PolicyRules
  import opened Reloading
  import opened Bearer

  const MAX_CAPABILITIES := 1024
  const MAX_TOKENS := 4096
  const MIN_TOKEN_BYTES := 32
  const MAX_TOKEN_BYTES := 4096
  const VERSION := 1

  type Digest = seq<Byte>

  datatype RawCapability = RawCapability(
    name: string, tokens: seq<string>, allowedKeys: seq<string>, allowedKeyPrefixes: seq<string>)

  datatype RawPolicy = RawPolicy(version: nat, capabilities: seq<RawCapability>)

  datatype Capability = Capability(tokens: seq<Digest>, rules: Rules)

  datatype AuthError =
    | FileUnreadable | FileTooLarge | FileMalformed
    | UnsupportedPolicyVersion
    | NoCapabilities
    | TooManyCapabilities
    | NameBlank(index: nat)
    | NameUntrimmed(index: nat)
    | NamesNotUnique
    | NoTokens(index: nat)
    | TooManyTokens
    | TokenLength(index: nat)
    | TokenBytes(index: nat)
    | TokensNotUnique
    | EntryBlank(index: nat)
    | NoGrants(index: nat)

  // ---------- What an acceptable policy is ----------

  predicate LengthInRange(token: string) {
    MIN_TOKEN_BYTES <= Utf8Len(token) <= MAX_TOKEN_BYTES
  }

  predicate TokenOk(token: string) {
    LengthInRange(token) && AllGraphic(token)
  }

  lemma {:induction false} AsciiLength(s: string)
    requires forall c | c in s :: c <= '~'
    ensures Utf8Len(s) == |s|
  {
    if s != "" {
      assert s[0] in s && forall c | c in s[1..] :: c in s;
      AsciiLength(s[1..]);
    }
  }

  /** A token is acceptable exactly when it is 32 to 4096 printable non-space ASCII characters. */
  lemma TokenExactly(token: string)
    ensures TokenOk(token) <==> 32 <= |token| <= 4096 && forall c | c in token :: '!' <= c <= '~'
  {
    if AllGraphic(token) {
      AsciiLength(token);
    }
  }

  predicate CapabilityOk(c: RawCapability) {
    && Trim(c.name) != "" && Trim(c.name) == c.name
    && c.tokens != [] && (forall t | t in c.tokens :: TokenOk(t))
    && NormalizedEntries(c.allowedKeys).Ok? && NormalizedEntries(c.allowedKeyPrefixes).Ok?
    && (c.allowedKeys != [] || c.allowedKeyPrefixes != [])
  }

  /** All the tokens of a policy, in order. */
  function TokensOf(capabilities: seq<RawCapability>): seq<string> {
    if capabilities == [] then []
    else TokensOf(capabilities[..|capabilities| - 1]) + capabilities[|capabilities| - 1].tokens
  }

  predicate DistinctNames(capabilities: seq<RawCapability>) {
    forall i, j | 0 <= i < j < |capabilities| :: capabilities[i].name != capabilities[j].name
  }

  predicate DistinctDigests(digest: string -> Digest, tokens: seq<string>) {
    forall i, j | 0 <= i < j < |tokens| :: digest(tokens[i]) != digest(tokens[j])
  }

  predicate Acceptable(digest: string -> Digest, raw: RawPolicy) {
    && raw.version == VERSION
    && 1 <= |raw.capabilities| <= MAX_CAPABILITIES
    && (forall c | c in raw.capabilities :: CapabilityOk(c))
    && DistinctNames(raw.capabilities)
    && |TokensOf(raw.capabilities)| <= MAX_TOKENS
    && DistinctDigests(digest, TokensOf(raw.capabilities))
  }

  /** The fault that an error reports is there. */
  predicate Blames(digest: string -> Digest, raw: RawPolicy, error: AuthError) {
    var cs := raw.capabilities;
    match error
    case UnsupportedPolicyVersion => raw.version != VERSION
    case NoCapabilities => cs == []
    case TooManyCapabilities => |cs| > MAX_CAPABILITIES
    case NameBlank(i) => i < |cs| && Trim(cs[i].name) == ""
    case NameUntrimmed(i) => i < |cs| && Trim(cs[i].name) != cs[i].name
    case NamesNotUnique => !DistinctNames(cs)
    case NoTokens(i) => i < |cs| && cs[i].tokens == []
    case TooManyTokens => |TokensOf(cs)| > MAX_TOKENS
    case TokenLength(i) => i < |cs| && exists t | t in cs[i].tokens :: !LengthInRange(t)
    case TokenBytes(i) => i < |cs| && exists t | t in cs[i].tokens :: !AllGraphic(t)
    case TokensNotUnique => !DistinctDigests(digest, TokensOf(cs))
    case EntryBlank(i) =>
      i < |cs| && (NormalizedEntries(cs[i].allowedKeys).Err? || NormalizedEntries(cs[i].allowedKeyPrefixes).Err?)
    case NoGrants(i) => i < |cs| && cs[i].allowedKeys == [] && cs[i].allowedKeyPrefixes == []
    case _ => false
  }

  lemma BlameIsFair(digest: string -> Digest, raw: RawPolicy, error: AuthError)
    requires Blames(digest, raw, error)
    ensures !Acceptable(digest, raw)
  {
    if error.NameBlank? || error.NameUntrimmed? || error.NoTokens? || error.TokenLength? || error.TokenBytes?
       || error.EntryBlank? || error.NoGrants? {
      assert raw.capabilities[error.index] in raw.capabilities;
      assert !CapabilityOk(raw.capabilities[error.index]);
    }
  }

  function Digests(digest: string -> Digest, tokens: seq<string>): seq<Digest> {
    seq(|tokens|, i requires 0 <= i < |tokens| => digest(tokens[i]))
  }

  function BuiltCapability(digest: string -> Digest, c: RawCapability): Capability
    requires CapabilityOk(c)
  {
    Capability(
      Digests(digest, c.tokens),
      AllowList(NormalizedEntries(c.allowedKeys).value, NormalizedEntries(c.allowedKeyPrefixes).value))
  }

  predicate Built(digest: string -> Digest, raw: seq<RawCapability>, built: seq<Capability>) {
    && |built| == |raw|
    && forall k | 0 <= k < |raw| :: CapabilityOk(raw[k]) && built[k] == BuiltCapability(digest, raw[k])
  }

  // ---------- The builder ----------

  function NamesIn(capabilities: seq<RawCapability>): set<string> {
    set i | 0 <= i < |capabilities| :: capabilities[i].name
  }

  function DigestsIn(digest: string -> Digest, tokens: seq<string>): set<Digest> {
    set i | 0 <= i < |tokens| :: digest(tokens[i])
  }

  lemma TokensStep(capabilities: seq<RawCapability>, i: nat)
    requires i < |capabilities|
    ensures TokensOf(capabilities[..i + 1]) == TokensOf(capabilities[..i]) + capabilities[i].tokens
  {
    assert capabilities[..i + 1][..i] == capabilities[..i];
  }

  lemma {:induction false} TokensPrefix(capabilities: seq<RawCapability>, i: nat)
    requires i <= |capabilities|
    ensures TokensOf(capabilities[..i]) <= TokensOf(capabilities)
  {
    if i < |capabilities| {
      TokensPrefix(capabilities[..|capabilities| - 1], i);
      assert capabilities[..|capabilities| - 1][..i] == capabilities[..i];
    } else {
      assert capabilities[..i] == capabilities;
    }
  }

  lemma DuplicateInPrefix(digest: string -> Digest, prefix: seq<string>, tokens: seq<string>)
    requires prefix <= tokens && !DistinctDigests(digest, prefix)
    ensures !DistinctDigests(digest, tokens)
  {
    var i, j :| 0 <= i < j < |prefix| && digest(prefix[i]) == digest(prefix[j]);
    assert digest(tokens[i]) == digest(tokens[j]);
  }

  /** One more token: its digest was seen before exactly when the longer list has a duplicate. */
  lemma OneMoreToken(digest: string -> Digest, seen: seq<string>, token: string)
    requires DistinctDigests(digest, seen)
    ensures DigestsIn(digest, seen + [token]) == DigestsIn(digest, seen) + {digest(token)}
    ensures digest(token) !in DigestsIn(digest, seen) <==> DistinctDigests(digest, seen + [token])
  {
    var more := seen + [token];
    assert forall i | 0 <= i < |seen| :: more[i] == seen[i];
    assert more[|seen|] == token;
    forall d ensures d in DigestsIn(digest, more) <==> d in DigestsIn(digest, seen) || d == digest(token) {
      if d in DigestsIn(digest, seen) {
        var i :| 0 <= i < |seen| && digest(seen[i]) == d;
        assert digest(more[i]) == d;
      }
    }
    if digest(token) in DigestsIn(digest, seen) {
      var i :| 0 <= i < |seen| && digest(seen[i]) == digest(token);
      assert digest(more[i]) == digest(more[|seen|]);
    }
  }

  lemma NamesStep(capabilities: seq<RawCapability>, i: nat)
    requires i < |capabilities|
    ensures NamesIn(capabilities[..i + 1]) == NamesIn(capabilities[..i]) + {capabilities[i].name}
  {
    var before, after := capabilities[..i], capabilities[..i + 1];
    forall n ensures n in NamesIn(after) <==> n in NamesIn(before) || n == capabilities[i].name {
      if n in NamesIn(before) {
        var k :| 0 <= k < |before| && before[k].name == n;
        assert after[k].name == n;
      }
      if n in NamesIn(after) {
        var k :| 0 <= k < |after| && after[k].name == n;
        assert k < i ==> before[k].name == n;
      }
      assert after[i].name == capabilities[i].name;
    }
  }

  lemma OneMoreName(capabilities: seq<RawCapability>, i: nat)
    requires i < |capabilities| && DistinctNames(capabilities[..i])
    ensures capabilities[i].name !in NamesIn(capabilities[..i]) ==> DistinctNames(capabilities[..i + 1])
    ensures capabilities[i].name in NamesIn(capabilities[..i]) ==> !DistinctNames(capabilities)
  {
    var before, after := capabilities[..i], capabilities[..i + 1];
    if capabilities[i].name in NamesIn(before) {
      var k :| 0 <= k < |before| && before[k].name == capabilities[i].name;
      assert capabilities[k].name == capabilities[i].name;
    } else {
      forall j, k | 0 <= j < k < |after| ensures after[j].name != after[k].name {
        assert after[j] == before[j];
        if k < i {
          assert after[k] == before[k];
        } else {
          assert before[j].name in NamesIn(before);
        }
      }
    }
  }

  /** The validation and digesting of the tokens of one capability. */
  method DigestTokens(
      digest: string -> Digest, tokens: seq<string>, index: nat, digestsSeen: set<Digest>, ghost seen: seq<string>)
    returns (r: Result<seq<Digest>, AuthError>, digests: set<Digest>)
    requires DistinctDigests(digest, seen) && digestsSeen == DigestsIn(digest, seen)
    ensures r.Ok? ==>
              && (forall t | t in tokens :: TokenOk(t))
              && r.value == Digests(digest, tokens)
              && DistinctDigests(digest, seen + tokens)
              && digests == DigestsIn(digest, seen + tokens)
    ensures r.Err? ==>
              match r.error
              case TokenLength(i) => i == index && exists t | t in tokens :: !LengthInRange(t)
              case TokenBytes(i) => i == index && exists t | t in tokens :: !AllGraphic(t)
              case TokensNotUnique => !DistinctDigests(digest, seen + tokens)
              case _ => false
  {
    digests := digestsSeen;
    var built: seq<Digest> := [];
    assert seen + tokens[..0] == seen;
    for j := 0 to |tokens|
      invariant forall k | 0 <= k < j :: TokenOk(tokens[k])
      invariant built == Digests(digest, tokens[..j])
      invariant DistinctDigests(digest, seen + tokens[..j])
      invariant digests == DigestsIn(digest, seen + tokens[..j])
    {
      var token := tokens[j];
      if !LengthInRange(token) {
        return Err(TokenLength(index)), digests;
      }
      if !AllGraphic(token) {
        return Err(TokenBytes(index)), digests;
      }
      var d := digest(token);
      OneMoreToken(digest, seen + tokens[..j], token);
      assert seen + tokens[..j] + [token] == seen + tokens[..j + 1];
      if d in digests {
        assert seen + tokens[..j + 1] <= seen + tokens;
        DuplicateInPrefix(digest, seen + tokens[..j + 1], seen + tokens);
        return Err(TokensNotUnique), digests;
      }
      digests := digests + {d};
      built := built + [d];
    }
    assert tokens[..|tokens|] == tokens;
    return Ok(built), digests;
  }

  /** `TryFrom<RawAuthPolicy>`: accepts exactly the acceptable policies; an error names a real fault. */
  method TryFrom(digest: string -> Digest, raw: RawPolicy) returns (r: Result<seq<Capability>, AuthError>)
    ensures r.Ok? <==> Acceptable(digest, raw)
    ensures r.Ok? ==> Built(digest, raw.capabilities, r.value)
    ensures r.Err? ==> Blames(digest, raw, r.error)
  {
    r := CheckCapabilities(digest, raw);
    if r.Err? {
      BlameIsFair(digest, raw, r.error);
    }
  }

  /** The grants of one capability. */
  method BuildRules(c: RawCapability, index: nat) returns (r: Result<Rules, AuthError>)
    ensures r.Ok? ==>
              && NormalizedEntries(c.allowedKeys).Ok? && NormalizedEntries(c.allowedKeyPrefixes).Ok?
              && (c.allowedKeys != [] || c.allowedKeyPrefixes != [])
              && r.value == AllowList(NormalizedEntries(c.allowedKeys).value, NormalizedEntries(c.allowedKeyPrefixes).value)
    ensures r.Err? ==>
              || (r.error == NoGrants(index) && c.allowedKeys == [] && c.allowedKeyPrefixes == [])
              || (r.error == EntryBlank(index)
                  && (NormalizedEntries(c.allowedKeys).Err? || NormalizedEntries(c.allowedKeyPrefixes).Err?))
  {
    var keys := NormalizeEntries(c.allowedKeys);
    if keys.Err? {
      return Err(EntryBlank(index));
    }
    var prefixes := NormalizeEntries(c.allowedKeyPrefixes);
    if prefixes.Err? {
      return Err(EntryBlank(index));
    }
    if keys.value == [] && prefixes.value == [] {
      return Err(NoGrants(index));
    }
    return Ok(AllowList(keys.value, prefixes.value));
  }

  lemma BuiltSnoc(digest: string -> Digest, cs: seq<RawCapability>, i: nat, built: seq<Capability>, b: Capability)
    requires i < |cs| && Built(digest, cs[..i], built)
    requires CapabilityOk(cs[i]) && b == BuiltCapability(digest, cs[i])
    ensures Built(digest, cs[..i + 1], built + [b])
  {
  }

  lemma AllOk(digest: string -> Digest, cs: seq<RawCapability>, built: seq<Capability>)
    requires Built(digest, cs, built)
    ensures forall c | c in cs :: CapabilityOk(c)
  {
  }

  method CheckCapabilities(digest: string -> Digest, raw: RawPolicy) returns (r: Result<seq<Capability>, AuthError>)
    ensures r.Ok? ==> Acceptable(digest, raw) && Built(digest, raw.capabilities, r.value)
    ensures r.Err? ==> Blames(digest, raw, r.error)
  {
    var cs := raw.capabilities;
    if raw.version != VERSION {
      return Err(UnsupportedPolicyVersion);
    }
    if cs == [] {
      return Err(NoCapabilities);
    }
    if |cs| > MAX_CAPABILITIES {
      return Err(TooManyCapabilities);
    }
    var names: set<string> := {};
    var digests: set<Digest> := {};
    var capabilities: seq<Capability> := [];
    var totalTokens := 0;
    for i := 0 to |cs|
      invariant Built(digest, cs[..i], capabilities)
      invariant DistinctNames(cs[..i]) && names == NamesIn(cs[..i])
      invariant totalTokens == |TokensOf(cs[..i])| <= MAX_TOKENS
      invariant DistinctDigests(digest, TokensOf(cs[..i])) && digests == DigestsIn(digest, TokensOf(cs[..i]))
    {
      var c := cs[i];
      if Trim(c.name) == "" {
        return Err(NameBlank(i));
      }
      if Trim(c.name) != c.name {
        return Err(NameUntrimmed(i));
      }
      NamesStep(cs, i);
      OneMoreName(cs, i);
      if c.name in names {
        return Err(NamesNotUnique);
      }
      names := names + {c.name};
      if c.tokens == [] {
        return Err(NoTokens(i));
      }
      TokensStep(cs, i);
      TokensPrefix(cs, i + 1);
      totalTokens := totalTokens + |c.tokens|;
      if totalTokens > MAX_TOKENS {
        return Err(TooManyTokens);
      }
      var tokens, more := DigestTokens(digest, c.tokens, i, digests, TokensOf(cs[..i]));
      if tokens.Err? {
        if tokens.error.TokensNotUnique? {
          DuplicateInPrefix(digest, TokensOf(cs[..i + 1]), TokensOf(cs));
        }
        return Err(tokens.error);
      }
      digests := more;
      var rules := BuildRules(c, i);
      if rules.Err? {
        return Err(rules.error);
      }
      var capability := Capability(tokens.value, rules.value);
      BuiltSnoc(digest, cs, i, capabilities, capability);
      capabilities := capabilities + [capability];
    }
    assert cs[..|cs|] == cs;
    AllOk(digest, cs, capabilities);
    return Ok(capabilities);
  }

  // ---------- Authorization ----------

  /** What a request may select: anything the global policy allows, or less. */
  datatype Scope = Global | ScopedTo(rules: Rules)

  predicate ScopeAllows(scope: Scope, key: string) {
    match scope
    case Global => true
    case ScopedTo(rules) => Allows(rules, key)
  }

  datatype AuthMode = Legacy(expected: Digest) | Scoped(capabilities: seq<Capability>) | DisabledInsecure

  /** The last capability that lists the digest. */
  function LastMatching(capabilities: seq<Capability>, d: Digest): Option<nat> {
    if capabilities == [] then None
    else if d in capabilities[|capabilities| - 1].tokens then Some(|capabilities| - 1)
    else LastMatching(capabilities[..|capabilities| - 1], d)
  }

  /** `ScopedAuthRules::authorize`: every digest is compared, whether or not one has matched. */
  method MatchCapability(capabilities: seq<Capability>, supplied: Digest) returns (matched: Option<nat>)
    ensures matched == LastMatching(capabilities, supplied)
  {
    matched := None;
    for i := 0 to |capabilities|
      invariant matched == LastMatching(capabilities[..i], supplied)
    {
      var tokens := capabilities[i].tokens;
      assert capabilities[..i + 1][..i] == capabilities[..i];
      ghost var before := matched;
      for j := 0 to |tokens|
        invariant matched == if supplied in tokens[..j] then Some(i) else before
      {
        assert tokens[..j + 1] == tokens[..j] + [tokens[j]];
        if tokens[j] == supplied {
          matched := Some(i);
        }
      }
      assert tokens[..|tokens|] == tokens;
    }
    assert capabilities[..|capabilities|] == capabilities;
  }

  /** `ScopedAuthPolicy::authorize`. */
  function AuthorizeToken(digest: string -> Digest, capabilities: seq<Capability>, supplied: string): Option<Scope> {
    if !LengthInRange(supplied) then None
    else
      match LastMatching(capabilities, digest(supplied))
      case Some(i) => if i < |capabilities| then Some(ScopedTo(capabilities[i].rules)) else None
      case None => None
  }

  /** `WebhookAuth::authorize`, on the `Authorization` values of the request. */
  function Authorize(digest: string -> Digest, mode: AuthMode, values: seq<string>): Option<Scope> {
    match mode
    case DisabledInsecure => Some(Global)
    case Legacy(expected) =>
      (match BearerToken(values)
       case None => None
       case Some(supplied) => if digest(supplied) == expected then Some(Global) else None)
    case Scoped(capabilities) =>
      match BearerToken(values)
      case None => None
      case Some(supplied) => AuthorizeToken(digest, capabilities, supplied)
  }

  lemma {:induction false} LastMatchingExactly(capabilities: seq<Capability>, d: Digest)
    ensures match LastMatching(capabilities, d)
            case None => forall k | 0 <= k < |capabilities| :: d !in capabilities[k].tokens
            case Some(i) =>
              && i < |capabilities| && d in capabilities[i].tokens
              && forall k | i < k < |capabilities| :: d !in capabilities[k].tokens
  {
    if capabilities != [] && d !in capabilities[|capabilities| - 1].tokens {
      var init := capabilities[..|capabilities| - 1];
      LastMatchingExactly(init, d);
      forall k | 0 <= k < |init| ensures init[k] == capabilities[k] {
      }
    }
  }

  // ---------- No token belongs to two capabilities ----------

  lemma TokenAt(cs: seq<RawCapability>, i: nat, j: nat)
    requires i < |cs| && j < |cs[i].tokens|
    ensures |TokensOf(cs[..i])| + j < |TokensOf(cs[..i + 1])| <= |TokensOf(cs)|
    ensures TokensOf(cs)[|TokensOf(cs[..i])| + j] == cs[i].tokens[j]
  {
    TokensStep(cs, i);
    TokensPrefix(cs, i + 1);
  }

  lemma EarlierTokens(cs: seq<RawCapability>, i: nat, k: nat)
    requires i <= k <= |cs|
    ensures |TokensOf(cs[..i])| <= |TokensOf(cs[..k])|
  {
    TokensPrefix(cs[..k], i);
    assert cs[..k][..i] == cs[..i];
  }

  lemma SamePlace(digest: string -> Digest, cs: seq<RawCapability>, i: nat, j: nat, k: nat, l: nat)
    requires DistinctDigests(digest, TokensOf(cs))
    requires i < |cs| && j < |cs[i].tokens| && k < |cs| && l < |cs[k].tokens|
    requires digest(cs[i].tokens[j]) == digest(cs[k].tokens[l])
    ensures i == k && j == l
  {
    TokenAt(cs, i, j);
    TokenAt(cs, k, l);
    var a, b := |TokensOf(cs[..i])| + j, |TokensOf(cs[..k])| + l;
    assert a == b;
    if i < k {
      EarlierTokens(cs, i + 1, k);
    } else if k < i {
      EarlierTokens(cs, k + 1, i);
    }
  }

  /** Across an accepted policy every digest occurs in one place only. */
  lemma DigestsAreUnique(
      digest: string -> Digest, raw: RawPolicy, built: seq<Capability>, i: nat, j: nat, k: nat, l: nat)
    requires Acceptable(digest, raw) && Built(digest, raw.capabilities, built)
    requires i < |built| && j < |built[i].tokens| && k < |built| && l < |built[k].tokens|
    requires built[i].tokens[j] == built[k].tokens[l]
    ensures i == k && j == l
  {
    SamePlace(digest, raw.capabilities, i, j, k, l);
  }

  /** So the last match of the scan is the only one. */
  lemma OnlyMatch(digest: string -> Digest, raw: RawPolicy, built: seq<Capability>, d: Digest, i: nat)
    requires Acceptable(digest, raw) && Built(digest, raw.capabilities, built)
    ensures LastMatching(built, d) == Some(i) <==> i < |built| && d in built[i].tokens
  {
    LastMatchingExactly(built, d);
    if i < |built| && d in built[i].tokens {
      var j :| 0 <= j < |built[i].tokens| && built[i].tokens[j] == d;
      assert LastMatching(built, d).Some?;
      var k := LastMatching(built, d).value;
      var l :| 0 <= l < |built[k].tokens| && built[k].tokens[l] == d;
      DigestsAreUnique(digest, raw, built, i, j, k, l);
    }
  }

  /**
   * For every accepted policy and every digest function: a request that carries a listed token
   * as "Bearer t" is granted the rules of the capability that lists it, and no others.
   */
  lemma ListedTokenIsGranted(digest: string -> Digest, raw: RawPolicy, built: seq<Capability>, i: nat, token: string)
    requires Acceptable(digest, raw) && Built(digest, raw.capabilities, built)
    requires i < |raw.capabilities| && token in raw.capabilities[i].tokens
    ensures Authorize(digest, Scoped(built), ["Bearer " + token]) == Some(ScopedTo(built[i].rules))
  {
    assert CapabilityOk(raw.capabilities[i]) && TokenOk(token);
    assert Utf8Len("") == 0;
    PlainBearer(token);
    var j :| 0 <= j < |raw.capabilities[i].tokens| && raw.capabilities[i].tokens[j] == token;
    assert built[i].tokens[j] == digest(token);
    OnlyMatch(digest, raw, built, digest(token), i);
  }

  /** The key is one of the capability's keys, or continues one of its prefixes, as trimmed. */
  ghost predicate CapabilityLists(c: RawCapability, key: string) {
    || (exists i :: 0 <= i < |c.allowedKeys| && Trim(c.allowedKeys[i]) == key)
    || (exists i, rest :: 0 <= i < |c.allowedKeyPrefixes| && key == Trim(c.allowedKeyPrefixes[i]) + rest)
  }

  lemma BuiltLists(digest: string -> Digest, c: RawCapability, key: string)
    requires CapabilityOk(c)
    ensures Allows(BuiltCapability(digest, c).rules, key) <==> CapabilityLists(c, key)
  {
    var keys, prefixes := NormalizedEntries(c.allowedKeys).value, NormalizedEntries(c.allowedKeyPrefixes).value;
    AllowsExactly(AllowList(keys, prefixes), key);
    if i :| 0 <= i < |keys| && keys[i] == key {
      assert Trim(c.allowedKeys[i]) == key;
    }
    if i :| 0 <= i < |c.allowedKeys| && Trim(c.allowedKeys[i]) == key {
      assert keys[i] == key;
    }
    if i, rest :| 0 <= i < |prefixes| && key == prefixes[i] + rest {
      assert key == Trim(c.allowedKeyPrefixes[i]) + rest;
    }
    if i, rest :| 0 <= i < |c.allowedKeyPrefixes| && key == Trim(c.allowedKeyPrefixes[i]) + rest {
      assert key == prefixes[i] + rest;
    }
  }

  /** From policy file to verdict: a listed token may select exactly what its own capability lists. */
  lemma ListedTokenReads(
      digest: string -> Digest, raw: RawPolicy, built: seq<Capability>, i: nat, token: string, key: string)
    requires Acceptable(digest, raw) && Built(digest, raw.capabilities, built)
    requires i < |raw.capabilities| && token in raw.capabilities[i].tokens
    ensures var scope := Authorize(digest, Scoped(built), ["Bearer " + token]);
            scope.Some? && (ScopeAllows(scope.value, key) <==> CapabilityLists(raw.capabilities[i], key))
  {
    ListedTokenIsGranted(digest, raw, built, i, token);
    BuiltLists(digest, raw.capabilities[i], key);
  }

  ghost predicate Supplies(digest: string -> Digest, values: seq<string>, token: string, c: Capability) {
    && (exists scheme :: CarriesToken(values, scheme, token))
    && LengthInRange(token) && digest(token) in c.tokens
  }

  /**
   * A scope is granted exactly when the request carries, in one well-formed header, a token of
   * acceptable length whose digest the capability lists; and then the policy lists a token with
   * that digest in that capability.
   */
  lemma GrantedExactly(digest: string -> Digest, raw: RawPolicy, built: seq<Capability>, values: seq<string>, scope: Scope)
    requires Acceptable(digest, raw) && Built(digest, raw.capabilities, built)
    ensures Authorize(digest, Scoped(built), values) == Some(scope) <==>
            exists token, i | 0 <= i < |built| :: Supplies(digest, values, token, built[i]) && scope == ScopedTo(built[i].rules)
    ensures forall token, i | 0 <= i < |built| && Supplies(digest, values, token, built[i]) ::
              exists t | t in raw.capabilities[i].tokens :: digest(t) == digest(token)
  {
    if Authorize(digest, Scoped(built), values) == Some(scope) {
      var token := BearerToken(values).value;
      BearerExactly(values, token);
      LastMatchingExactly(built, digest(token));
      var i := LastMatching(built, digest(token)).value;
      assert Supplies(digest, values, token, built[i]);
    }
    forall token, i | 0 <= i < |built| && Supplies(digest, values, token, built[i])
      ensures Authorize(digest, Scoped(built), values) == Some(ScopedTo(built[i].rules))
      ensures exists t | t in raw.capabilities[i].tokens :: digest(t) == digest(token)
    {
      BearerExactly(values, token);
      OnlyMatch(digest, raw, built, digest(token), i);
      var j :| 0 <= j < |built[i].tokens| && built[i].tokens[j] == digest(token);
      var t := raw.capabilities[i].tokens[j];
      assert t in raw.capabilities[i].tokens && digest(t) == digest(token);
    }
  }

  /** With authentication disabled, and only then, a request needs no token. */
  lemma DisabledExactly(digest: string -> Digest, mode: AuthMode)
    ensures Authorize(digest, mode, []) == if mode.DisabledInsecure? then Some(Global) else None
    ensures forall values :: Authorize(digest, DisabledInsecure, values) == Some(Global)
  {
  }

  /**
   * A policy of version 1 is acceptable exactly when it has 1 to 1024 acceptable capabilities
   * with distinct names and at most 4096 tokens with distinct digests.
   */
  lemma AcceptableExactly(digest: string -> Digest, raw: RawPolicy)
    ensures Acceptable(digest, raw) <==>
            && raw.version == 1
            && 1 <= |raw.capabilities| <= 1024 && |TokensOf(raw.capabilities)| <= 4096
            && (forall c | c in raw.capabilities :: IsAcceptable(c))
            && (forall i, j | 0 <= i < j < |raw.capabilities| :: raw.capabilities[i].name != raw.capabilities[j].name)
            && (var tokens := TokensOf(raw.capabilities);
                forall i, j | 0 <= i < j < |tokens| :: digest(tokens[i]) != digest(tokens[j]))
  {
    forall c | c in raw.capabilities ensures CapabilityOk(c) <==> IsAcceptable(c) {
      CapabilityExactly(c);
    }
  }

  /**
   * A trimmed name, some tokens of 32 to 4096 printable non-space ASCII characters, and some
   * keys or prefixes, none of them blank.
   */
  predicate IsAcceptable(c: RawCapability) {
    && Trim(c.name) == c.name != ""
    && c.tokens != [] && (forall t | t in c.tokens :: 32 <= |t| <= 4096 && forall ch | ch in t :: '!' <= ch <= '~')
    && |c.allowedKeys| + |c.allowedKeyPrefixes| > 0
    && (forall e | e in c.allowedKeys :: Trim(e) != "") && (forall e | e in c.allowedKeyPrefixes :: Trim(e) != "")
  }

  lemma CapabilityExactly(c: RawCapability)
    ensures CapabilityOk(c) <==> IsAcceptable(c)
  {
    forall t | t in c.tokens ensures TokenOk(t) <==> 32 <= |t| <= 4096 && forall ch | ch in t :: '!' <= ch <= '~' {
      TokenExactly(t);
    }
  }

  /** The single-token mode grants the global scope exactly to the configured digest. */
  lemma LegacyExactly(digest: string -> Digest, expected: Digest, values: seq<string>)
    ensures Authorize(digest, Legacy(expected), values) == Some(Global) <==>
            exists scheme, token :: CarriesToken(values, scheme, token) && digest(token) == expected
    ensures Authorize(digest, Legacy(expected), values) != Some(Global) ==>
              Authorize(digest, Legacy(expected), values) == None
  {
    if BearerToken(values).Some? {
      BearerExactly(values, BearerToken(values).value);
    }
    forall scheme, token | CarriesToken(values, scheme, token) ensures BearerToken(values) == Some(token) {
      BearerExactly(values, token);
    }
  }

  // ---------- Reload ----------

  /** What reading and decoding the policy file yields. */
  datatype PolicyRead = ReadFailed(error: AuthError) | Parsed(raw: RawPolicy)

  function BuiltPolicy(digest: string -> Digest, cs: seq<RawCapability>): seq<Capability>
    requires forall c | c in cs :: CapabilityOk(c)
  {
    seq(|cs|, i requires 0 <= i < |cs| => BuiltCapability(digest, cs[i]))
  }

  /** The rules of an acceptable policy. */
  function Accepted(digest: string -> Digest, file: PolicyRead): Result<seq<Capability>, ()> {
    if file.Parsed? && Acceptable(digest, file.raw) then Ok(BuiltPolicy(digest, file.raw.capabilities)) else Err(())
  }

  function Acceptor(digest: string -> Digest): PolicyRead -> Result<seq<Capability>, ()> {
    (file: PolicyRead) => Accepted(digest, file)
  }

  /** `ScopedAuthRules::read`. */
  method Read(digest: string -> Digest, file: PolicyRead) returns (r: Result<seq<Capability>, AuthError>)
    ensures r.Ok? <==> Accepted(digest, file).Ok?
    ensures r.Ok? ==> r.value == Accepted(digest, file).value
  {
    if file.ReadFailed? {
      return Err(file.error);
    }
    r := TryFrom(digest, file.raw);
    if r.Ok? {
      assert r.value == BuiltPolicy(digest, file.raw.capabilities);
    }
  }

  class ScopedAuthPolicy {
    const digest: string -> Digest
    var rules: seq<Capability>

    constructor (digest: string -> Digest, rules: seq<Capability>)
      ensures this.digest == digest && this.rules == rules
    {
      this.digest, this.rules := digest, rules;
    }

    method Reload(file: PolicyRead) returns (r: Result<bool, AuthError>)
      modifies this
      ensures rules == KeepLastGood(digest, old(rules), file)
      ensures r.Ok? <==> Accepted(digest, file).Ok?
      ensures r.Ok? ==> r.value == (rules != old(rules))
    {
      var next := Read(digest, file);
      if next.Err? {
        return Err(next.error);
      }
      if rules == next.value {
        return Ok(false);
      }
      rules := next.value;
      return Ok(true);
    }

    method AuthorizeSupplied(supplied: string) returns (scope: Option<Scope>)
      ensures scope == AuthorizeToken(digest, rules, supplied)
    {
      if !LengthInRange(supplied) {
        return None;
      }
      LastMatchingExactly(rules, digest(supplied));
      var matched := MatchCapability(rules, digest(supplied));
      return match matched case Some(i) => Some(ScopedTo(rules[i].rules)) case None => None;
    }
  }

  function KeepLastGood(digest: string -> Digest, rules: seq<Capability>, file: PolicyRead): seq<Capability> {
    match Accepted(digest, file)
    case Ok(next) => next
    case Err(_) => rules
  }

  function AfterReloads(digest: string -> Digest, rules: seq<Capability>, readings: seq<PolicyRead>): seq<Capability> {
    if readings == [] then rules
    else KeepLastGood(digest, AfterReloads(digest, rules, readings[..|readings| - 1]), readings[|readings| - 1])
  }

  /** The rules come from a policy that passed every check. */
  ghost predicate FromAcceptable(digest: string -> Digest, rules: seq<Capability>) {
    exists raw :: Acceptable(digest, raw) && Built(digest, raw.capabilities, rules)
  }

  lemma AcceptedIsAcceptable(digest: string -> Digest, file: PolicyRead)
    requires Accepted(digest, file).Ok?
    ensures FromAcceptable(digest, Accepted(digest, file).value)
  {
    assert Built(digest, file.raw.capabilities, Accepted(digest, file).value);
  }

  /**
   * Over any run of reloads of any file contents the rules served are those of the last file
   * that was accepted, and they always come from an acceptable policy, so that no digest is
   * ever listed twice.
   */
  lemma {:induction false} AuthServesLastGood(digest: string -> Digest, initial: seq<Capability>, readings: seq<PolicyRead>)
    requires FromAcceptable(digest, initial)
    ensures ServesLast(Acceptor(digest), initial, readings, AfterReloads(digest, initial, readings))
    ensures FromAcceptable(digest, AfterReloads(digest, initial, readings))
  {
    if readings != [] {
      var n := |readings| - 1;
      AuthServesLastGood(digest, initial, readings[..n]);
      if Acceptor(digest)(readings[n]).Ok? {
        ServesGood(Acceptor(digest), initial, readings);
        AcceptedIsAcceptable(digest, readings[n]);
      } else {
        ServesPrevious(Acceptor(digest), initial, readings, AfterReloads(digest, initial, readings[..n]));
      }
    }
  }
}
