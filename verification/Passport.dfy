/** Verifying a passport under one key, and under several during key rotation. */
module Passport {
  import opened Bytes
  import opened JsText
  import opened Checks

  // ---------- Scopes ----------

  /** An element of a decoded array.  A value is printable unless String(value) throws, as it does for an object whose
      own toString is no function. */
  datatype Element = Str(text: JsString) | NoString(printable: bool)

  predicate Covers(granted: JsString, requested: JsString) {
    || granted == Text("*")
    || granted == requested
    || (|granted| >= 2 && granted[|granted| - 2..] == Text(":*") && granted[..|granted| - 1] <= requested)
  }

  /** "*" covers everything, a category with a wildcard everything that begins with the category and a colon, and any
      other text itself. */
  lemma CoversExactly(granted: JsString, requested: JsString)
    ensures Covers(granted, requested) <==>
              || granted == Text("*") || granted == requested
              || exists category: JsString :: granted == category + Text(":*") && category + Text(":") <= requested
  {
    if |granted| >= 2 && granted[|granted| - 2..] == Text(":*") && granted[..|granted| - 1] <= requested {
      var category := granted[..|granted| - 2];
      assert granted[|granted| - 2..][0] == Text(":*")[0];
      assert granted == category + Text(":*") && granted[..|granted| - 1] == category + Text(":");
    }
    forall category: JsString | granted == category + Text(":*") && category + Text(":") <= requested
      ensures Covers(granted, requested)
    {
      assert granted[..|granted| - 1] == category + Text(":") && granted[|granted| - 2..] == Text(":*");
    }
  }

  datatype Match = Granted(scope: JsString) | Denied | TypeError

  /** Whether the search ends at an element: it covers the request, or it is no string and has no endsWith. */
  predicate Ends(e: Element, requested: JsString) {
    e.NoString? || Covers(e.text, requested)
  }

  /** The first element at which the search ends decides. */
  function MatchScope(granted: seq<Element>, requested: JsString): Match {
    if granted == [] then Denied
    else if granted[0].NoString? then TypeError
    else if Covers(granted[0].text, requested) then Granted(granted[0].text)
    else MatchScope(granted[1..], requested)
  }

  method MatchScopeLoop(granted: seq<Element>, requested: JsString) returns (m: Match)
    ensures m == MatchScope(granted, requested)
  {
    assert granted[0..] == granted;
    for i := 0 to |granted|
      invariant MatchScope(granted[i..], requested) == MatchScope(granted, requested)
    {
      var g := granted[i];
      assert granted[i..][0] == g && granted[i..][1..] == granted[i + 1..];
      if g.NoString? {
        return TypeError;
      }
      if g.text == Text("*") {
        return Granted(g.text);
      }
      if g.text == requested {
        return Granted(g.text);
      }
      if |g.text| >= 2 && g.text[|g.text| - 2..] == Text(":*") && g.text[..|g.text| - 1] <= requested {
        return Granted(g.text);
      }
    }
    return Denied;
  }

  /** A scope is granted exactly when some element covers the request and none before it stops the search; it is the
      first that does. */
  lemma {:induction false} MatchScopeFirst(granted: seq<Element>, requested: JsString)
    ensures MatchScope(granted, requested).Denied? <==> forall i :: 0 <= i < |granted| ==> !Ends(granted[i], requested)
    ensures !MatchScope(granted, requested).Denied? ==>
              exists i :: 0 <= i < |granted| && Ends(granted[i], requested) && (forall j :: 0 <= j < i ==> !Ends(granted[j], requested))
                          && MatchScope(granted, requested) == if granted[i].Str? then Granted(granted[i].text) else TypeError
  {
    if granted != [] && !Ends(granted[0], requested) {
      var rest := granted[1..];
      MatchScopeFirst(rest, requested);
      if !MatchScope(rest, requested).Denied? {
        var i :| 0 <= i < |rest| && Ends(rest[i], requested) && (forall j :: 0 <= j < i ==> !Ends(rest[j], requested))
                 && MatchScope(rest, requested) == if rest[i].Str? then Granted(rest[i].text) else TypeError;
        assert granted[i + 1] == rest[i];
        forall j | 0 <= j < i + 1
          ensures !Ends(granted[j], requested)
        {
          if j > 0 {
            assert granted[j] == rest[j - 1];
          }
        }
      } else {
        forall j | 0 <= j < |granted|
          ensures !Ends(granted[j], requested)
        {
          if j > 0 {
            assert granted[j] == rest[j - 1];
          }
        }
      }
    }
  }

  // ---------- One key ----------

  /** A decoded claim: absent stands for undefined and null, Malformed for a value of another type. */
  datatype Claim<T> = Absent | Malformed(printable: bool) | Is(value: T)

  datatype Version = Supported | Unsupported(printable: bool)

  datatype Header = Header(alg: Claim<JsString>, typ: Claim<JsString>)

  datatype Vane = Vane(version: Version, scopes: Claim<seq<Element>>, chain: Claim<seq<Element>>,
                       nonce: Claim<JsString>, aud: Claim<JsString>, requestHash: Claim<JsString>)

  datatype Claims = Claims(exp: Claim<real>, nbf: Claim<real>, aud: Claim<seq<Element>>, iss: Claim<JsString>,
                           sub: Claim<JsString>, vane: Claim<Vane>)

  /** A token as decoded, and the keys under which its signature is good.  A header or a body may decode to null. */
  datatype Token = Unreadable | Token(header: Option<Header>, claims: Option<Claims>, signedBy: JsString -> bool)

  datatype Options = Options(tool: Option<JsString>, nonce: Option<JsString>, audience: Option<JsString>,
                             requestHash: Option<JsString>, now: real, skew: real, spiffe: JsString -> bool)

  datatype Code =
    | MALFORMED_TOKEN | ALGORITHM_MISMATCH | WRONG_TOKEN_TYPE | SIGNATURE_INVALID | TOKEN_EXPIRED | TOKEN_NOT_YET_VALID
    | AUDIENCE_MISMATCH | MISSING_NONCE | NONCE_MISMATCH | MISSING_AUDIENCE | REQUEST_MISMATCH | INVALID_ISSUER
    | INVALID_SUBJECT | UNSUPPORTED_VERSION | MALFORMED_CLAIMS | CHAIN_INCOHERENT | SCOPE_DENIED | VERIFICATION_ERROR

  /** A negative skew throws to the caller; every other failure is a code. */
  datatype Verdict = Valid(scope: Element) | Invalid(code: Code) | Throws

  predicate Printable<T>(claim: Claim<T>) {
    claim.Malformed? ==> claim.printable
  }

  /** Some failures print the offending value, which may throw in turn. */
  function Refusal(code: Code, printable: bool): Code {
    if printable then code else VERIFICATION_ERROR
  }

  /** The checks before the signature; None when they pass. */
  function CheckHeader(token: Token): Option<Code> {
    if token.Unreadable? then Some(MALFORMED_TOKEN)
    else if token.header.None? then Some(VERIFICATION_ERROR)
    else if token.header.value.alg != Is(Text("EdDSA")) then Some(Refusal(ALGORITHM_MISMATCH, Printable(token.header.value.alg)))
    else if token.header.value.typ != Is(Text("CAP+JWT")) then Some(Refusal(WRONG_TOKEN_TYPE, Printable(token.header.value.typ)))
    else None
  }

  function CheckNonce(vane: Vane, opts: Options): Option<Code> {
    if opts.nonce.None? then None
    else if vane.nonce.Absent? then Some(MISSING_NONCE)
    else if vane.nonce != Is(opts.nonce.value) then Some(NONCE_MISMATCH)
    else None
  }

  function CheckAudience(vane: Vane, opts: Options): Option<Code> {
    if opts.audience.None? then None
    else if vane.aud.Absent? then Some(MISSING_AUDIENCE)
    else if vane.aud != Is(opts.audience.value) then Some(Refusal(AUDIENCE_MISMATCH, Printable(vane.aud)))
    else None
  }

  /** Gated by the claim, not by the option. */
  function CheckRequest(vane: Vane, opts: Options): Option<Code> {
    if vane.requestHash.Absent? then None
    else if opts.requestHash.None? || vane.requestHash != Is(opts.requestHash.value) then Some(REQUEST_MISMATCH)
    else None
  }

  function GrantScope(scopes: seq<Element>, opts: Options): Verdict
    requires scopes != []
  {
    if opts.tool.None? then Valid(scopes[0])
    else
      match MatchScope(scopes, Text("tool:") + opts.tool.value)
      case Granted(scope) => Valid(Str(scope))
      case Denied => Invalid(SCOPE_DENIED)
      case TypeError => Invalid(VERIFICATION_ERROR)
  }

  function Last(elements: seq<Element>): Element
    requires elements != []
  {
    elements[|elements| - 1]
  }

  predicate PrintableElement(e: Element) {
    e.NoString? ==> e.printable
  }

  function CheckVane(vane: Vane, sub: JsString, opts: Options): Verdict {
    if vane.version.Unsupported? then Invalid(Refusal(UNSUPPORTED_VERSION, vane.version.printable))
    else if !vane.scopes.Is? || vane.scopes.value == [] then Invalid(MALFORMED_CLAIMS)
    else if !vane.chain.Is? || vane.chain.value == [] then Invalid(MALFORMED_CLAIMS)
    else if Last(vane.chain.value) != Str(sub) then Invalid(Refusal(CHAIN_INCOHERENT, PrintableElement(Last(vane.chain.value))))
    else if CheckNonce(vane, opts).Some? then Invalid(CheckNonce(vane, opts).value)
    else if CheckAudience(vane, opts).Some? then Invalid(CheckAudience(vane, opts).value)
    else if CheckRequest(vane, opts).Some? then Invalid(CheckRequest(vane, opts).value)
    else GrantScope(vane.scopes.value, opts)
  }

  /** The checks after the signature. */
  function CheckClaims(claims: Option<Claims>, opts: Options): Verdict {
    if claims.None? then Invalid(VERIFICATION_ERROR)
    else
      var c := claims.value;
      if !c.exp.Is? || c.exp.value + opts.skew < opts.now then Invalid(TOKEN_EXPIRED)
      else if c.nbf.Is? && c.nbf.value - opts.skew > opts.now then Invalid(TOKEN_NOT_YET_VALID)
      else if !c.aud.Is? || Str(Text("vane:passport:v1")) !in c.aud.value then Invalid(AUDIENCE_MISMATCH)
      else if !c.iss.Is? || !opts.spiffe(c.iss.value) then Invalid(Refusal(INVALID_ISSUER, Printable(c.iss)))
      else if !c.sub.Is? || !opts.spiffe(c.sub.value) then Invalid(Refusal(INVALID_SUBJECT, Printable(c.sub)))
      else if !c.vane.Is? then Invalid(MALFORMED_CLAIMS)
      else CheckVane(c.vane.value, c.sub.value, opts)
  }

  function VerifyPassport(token: Token, opts: Options, key: JsString): Verdict {
    if opts.skew < 0.0 then Throws
    else if CheckHeader(token).Some? then Invalid(CheckHeader(token).value)
    else if !token.signedBy(key) then Invalid(SIGNATURE_INVALID)
    else CheckClaims(token.claims, opts)
  }

  // ---------- The steps in order ----------

  /** What is read of a header or a body that is null, where every step that follows fails or has failed. */
  ghost function HeaderOf(token: Token): Header {
    if token.Token? && token.header.Some? then token.header.value else Header(Absent, Absent)
  }

  ghost function ClaimsOf(token: Token): Claims {
    if token.Token? && token.claims.Some? then token.claims.value else Claims(Absent, Absent, Absent, Absent, Absent, Absent)
  }

  ghost function VaneOf(token: Token): Vane {
    if ClaimsOf(token).vane.Is? then ClaimsOf(token).vane.value
    else Vane(Version.Unsupported(true), Absent, Absent, Absent, Absent, Absent)
  }

  ghost predicate NotEmpty(claim: Claim<seq<Element>>) {
    claim.Is? && claim.value != []
  }

  ghost function Scopes(token: Token): seq<Element> {
    if VaneOf(token).scopes.Is? then VaneOf(token).scopes.value else []
  }

  /** The element of the scopes at which the search for a tool ends. */
  ghost predicate EndsAt(scopes: seq<Element>, tool: JsString, i: int) {
    0 <= i < |scopes| && Ends(scopes[i], Text("tool:") + tool) && forall j :: 0 <= j < i ==> !Ends(scopes[j], Text("tool:") + tool)
  }

  ghost function TailOf(token: Token): Element {
    if NotEmpty(VaneOf(token).chain) then Last(VaneOf(token).chain.value) else Str([])
  }

  /** Steps 1 to 16 of the verifier's own list, each with its code: parsing, algorithm, token type, signature, expiry,
      not-before, audience, issuer, subject, the claims object, its version and lists, coherence of the chain, the three
      sender constraints, and the scope.  A code whose message prints a value gives way when printing throws. */
  ghost function StepsOf(token: Token, opts: Options, key: JsString): seq<Check<Code>> {
    var h, c, v := HeaderOf(token), ClaimsOf(token), VaneOf(token);
    [Check(token.Token?, MALFORMED_TOKEN),
     Check(token.Token? && token.header.Some?, VERIFICATION_ERROR),
     Check(h.alg == Is(Text("EdDSA")),
           if h.alg.Malformed? && !h.alg.printable then VERIFICATION_ERROR else ALGORITHM_MISMATCH),
     Check(h.typ == Is(Text("CAP+JWT")),
           if h.typ.Malformed? && !h.typ.printable then VERIFICATION_ERROR else WRONG_TOKEN_TYPE),
     Check(token.Token? && token.signedBy(key), SIGNATURE_INVALID),
     Check(token.Token? && token.claims.Some?, VERIFICATION_ERROR),
     Check(c.exp.Is? && opts.now <= c.exp.value + opts.skew, TOKEN_EXPIRED),
     Check(c.nbf.Is? ==> c.nbf.value - opts.skew <= opts.now, TOKEN_NOT_YET_VALID),
     Check(c.aud.Is? && Str(Text("vane:passport:v1")) in c.aud.value, AUDIENCE_MISMATCH),
     Check(c.iss.Is? && opts.spiffe(c.iss.value),
           if c.iss.Malformed? && !c.iss.printable then VERIFICATION_ERROR else INVALID_ISSUER),
     Check(c.sub.Is? && opts.spiffe(c.sub.value),
           if c.sub.Malformed? && !c.sub.printable then VERIFICATION_ERROR else INVALID_SUBJECT),
     Check(c.vane.Is?, MALFORMED_CLAIMS),
     Check(v.version.Supported?,
           if v.version.Unsupported? && !v.version.printable then VERIFICATION_ERROR else UNSUPPORTED_VERSION),
     Check(NotEmpty(v.scopes), MALFORMED_CLAIMS),
     Check(NotEmpty(v.chain), MALFORMED_CLAIMS),
     Check(c.sub.Is? && TailOf(token) == Str(c.sub.value),
           if TailOf(token).NoString? && !TailOf(token).printable then VERIFICATION_ERROR else CHAIN_INCOHERENT),
     Check(opts.nonce.Some? ==> !v.nonce.Absent?, MISSING_NONCE),
     Check(opts.nonce.Some? ==> v.nonce == Is(opts.nonce.value), NONCE_MISMATCH),
     Check(opts.audience.Some? ==> !v.aud.Absent?, MISSING_AUDIENCE),
     Check(opts.audience.Some? ==> v.aud == Is(opts.audience.value),
           if v.aud.Malformed? && !v.aud.printable then VERIFICATION_ERROR else AUDIENCE_MISMATCH),
     Check(!v.requestHash.Absent? ==> opts.requestHash.Some? && v.requestHash == Is(opts.requestHash.value), REQUEST_MISMATCH),
     Check(opts.tool.Some? ==> exists i :: EndsAt(Scopes(token), opts.tool.value, i), SCOPE_DENIED),
     Check(opts.tool.Some? ==> forall i :: EndsAt(Scopes(token), opts.tool.value, i) ==> Scopes(token)[i].Str?, VERIFICATION_ERROR)]
  }

  ghost predicate Answers(token: Token, opts: Options, key: JsString, verdict: Verdict) {
    match verdict
    case Throws => opts.skew < 0.0
    case Invalid(code) => opts.skew >= 0.0 && FirstFailure(StepsOf(token, opts, key), Some(code))
    case Valid(scope) =>
      && opts.skew >= 0.0 && FirstFailure(StepsOf(token, opts, key), None)
      && (opts.tool.None? ==> Scopes(token) != [] && scope == Scopes(token)[0])
      && (opts.tool.Some? ==> exists i :: EndsAt(Scopes(token), opts.tool.value, i) && scope == Scopes(token)[i])
  }

  lemma HeaderSteps(token: Token, opts: Options, key: JsString, k: int)
    requires opts.skew >= 0.0 && k < 5 && FailsFirst(StepsOf(token, opts, key), k)
    ensures VerifyPassport(token, opts, key) == Invalid(StepsOf(token, opts, key)[k].otherwise)
  {
    var steps := StepsOf(token, opts, key);
    assert (k > 0 ==> steps[0].passes) && (k > 1 ==> steps[1].passes) && (k > 2 ==> steps[2].passes);
    assert (k > 3 ==> steps[3].passes);
    assert k == 0 || k == 1 || k == 2 || k == 3 || k == 4;
  }

  lemma HeaderPasses(token: Token, opts: Options, key: JsString, k: int)
    requires opts.skew >= 0.0 && 5 <= k <= 23 && forall j :: 0 <= j < k ==> StepsOf(token, opts, key)[j].passes
    ensures token.Token? && VerifyPassport(token, opts, key) == CheckClaims(token.claims, opts)
  {
    var steps := StepsOf(token, opts, key);
    assert steps[0].passes && steps[1].passes && steps[2].passes && steps[3].passes && steps[4].passes;
  }

  lemma ClaimSteps(token: Token, opts: Options, key: JsString, k: int)
    requires token.Token? && 5 <= k < 12 && FailsFirst(StepsOf(token, opts, key), k)
    ensures CheckClaims(token.claims, opts) == Invalid(StepsOf(token, opts, key)[k].otherwise)
  {
    var steps := StepsOf(token, opts, key);
    assert (k > 5 ==> steps[5].passes) && (k > 6 ==> steps[6].passes) && (k > 7 ==> steps[7].passes);
    assert (k > 8 ==> steps[8].passes) && (k > 9 ==> steps[9].passes) && (k > 10 ==> steps[10].passes);
    assert k == 5 || k == 6 || k == 7 || k == 8 || k == 9 || k == 10 || k == 11;
  }

  lemma ClaimsPass(token: Token, opts: Options, key: JsString, k: int)
    requires 12 <= k <= 23 && forall j :: 0 <= j < k ==> StepsOf(token, opts, key)[j].passes
    ensures token.Token? && token.claims.Some? && ClaimsOf(token).vane.Is? && ClaimsOf(token).sub.Is?
    ensures CheckClaims(token.claims, opts) == CheckVane(VaneOf(token), ClaimsOf(token).sub.value, opts)
  {
    var steps := StepsOf(token, opts, key);
    assert steps[0].passes && steps[5].passes && steps[6].passes && steps[7].passes && steps[8].passes;
    assert steps[9].passes && steps[10].passes && steps[11].passes;
  }

  lemma VaneSteps(token: Token, opts: Options, key: JsString, k: int)
    requires ClaimsOf(token).sub.Is? && 12 <= k < 21 && FailsFirst(StepsOf(token, opts, key), k)
    ensures CheckVane(VaneOf(token), ClaimsOf(token).sub.value, opts) == Invalid(StepsOf(token, opts, key)[k].otherwise)
  {
    var steps := StepsOf(token, opts, key);
    assert (k > 12 ==> steps[12].passes) && (k > 13 ==> steps[13].passes) && (k > 14 ==> steps[14].passes);
    assert (k > 15 ==> steps[15].passes) && (k > 16 ==> steps[16].passes) && (k > 17 ==> steps[17].passes);
    assert (k > 18 ==> steps[18].passes) && (k > 19 ==> steps[19].passes);
    assert k == 12 || k == 13 || k == 14 || k == 15 || k == 16 || k == 17 || k == 18 || k == 19 || k == 20;
  }

  lemma VanePasses(token: Token, opts: Options, key: JsString, k: int)
    requires ClaimsOf(token).sub.Is? && 21 <= k <= 23 && forall j :: 0 <= j < k ==> StepsOf(token, opts, key)[j].passes
    ensures Scopes(token) != []
    ensures CheckVane(VaneOf(token), ClaimsOf(token).sub.value, opts) == GrantScope(Scopes(token), opts)
  {
    var steps := StepsOf(token, opts, key);
    assert steps[12].passes && steps[13].passes && steps[14].passes && steps[15].passes && steps[16].passes;
    assert steps[17].passes && steps[18].passes && steps[19].passes && steps[20].passes;
  }

  lemma ScopeSteps(token: Token, opts: Options)
    requires Scopes(token) != []
    ensures var verdict := GrantScope(Scopes(token), opts);
            match opts.tool
            case None => verdict == Valid(Scopes(token)[0])
            case Some(tool) =>
              if !exists i :: EndsAt(Scopes(token), tool, i) then verdict == Invalid(SCOPE_DENIED)
              else forall i :: EndsAt(Scopes(token), tool, i) ==>
                     verdict == if Scopes(token)[i].Str? then Valid(Scopes(token)[i]) else Invalid(VERIFICATION_ERROR)
  {
    if opts.tool.Some? {
      var scopes, requested := Scopes(token), Text("tool:") + opts.tool.value;
      MatchScopeFirst(scopes, requested);
      forall i | EndsAt(scopes, opts.tool.value, i)
        ensures MatchScope(scopes, requested) == if scopes[i].Str? then Granted(scopes[i].text) else TypeError
      {
        var k :| 0 <= k < |scopes| && Ends(scopes[k], requested) && (forall j :: 0 <= j < k ==> !Ends(scopes[j], requested))
                 && MatchScope(scopes, requested) == if scopes[k].Str? then Granted(scopes[k].text) else TypeError;
        assert i == k;
      }
      if !exists i :: EndsAt(scopes, opts.tool.value, i) {
        NoneEnds(scopes, opts.tool.value);
      }
    }
  }

  /** If no element is the first at which the search ends, it ends at none. */
  lemma NoneEnds(scopes: seq<Element>, tool: JsString)
    requires !exists i :: EndsAt(scopes, tool, i)
    ensures forall i :: 0 <= i < |scopes| ==> !Ends(scopes[i], Text("tool:") + tool)
  {
    MatchScopeFirst(scopes, Text("tool:") + tool);
    forall i | 0 <= i < |scopes|
      ensures !Ends(scopes[i], Text("tool:") + tool)
    {
      if !MatchScope(scopes, Text("tool:") + tool).Denied? {
        var k :| 0 <= k < |scopes| && Ends(scopes[k], Text("tool:") + tool) && (forall j :: 0 <= j < k ==> !Ends(scopes[j], Text("tool:") + tool));
        assert EndsAt(scopes, tool, k);
      }
    }
  }

  /** The verdict for every token, option and key: the code of the first step that fails, in the order of the verifier's
      own list, and else the first scope or the one that covers the tool. */
  lemma VerdictExactly(token: Token, opts: Options, key: JsString)
    ensures Answers(token, opts, key, VerifyPassport(token, opts, key))
  {
    if opts.skew >= 0.0 {
      var k := SomeFirst(StepsOf(token, opts, key));
      if k < 5 {
        HeaderSteps(token, opts, key, k);
      } else {
        HeaderPasses(token, opts, key, k);
        AfterHeader(token, opts, key, k);
      }
    }
  }

  lemma AfterHeader(token: Token, opts: Options, key: JsString, k: int)
    requires opts.skew >= 0.0 && 5 <= k <= 23 && token.Token? && VerifyPassport(token, opts, key) == CheckClaims(token.claims, opts)
    requires FailsFirst(StepsOf(token, opts, key), k) || (k == 23 && FirstFailure(StepsOf(token, opts, key), None))
    ensures Answers(token, opts, key, CheckClaims(token.claims, opts))
  {
    if k < 12 {
      ClaimSteps(token, opts, key, k);
    } else {
      ClaimsPass(token, opts, key, k);
      if k < 21 {
        VaneSteps(token, opts, key, k);
      } else {
        VanePasses(token, opts, key, k);
        ScopeSteps(token, opts);
        ScopeAnswers(token, opts, key, k);
      }
    }
  }

  lemma ScopeAnswers(token: Token, opts: Options, key: JsString, k: int)
    requires opts.skew >= 0.0 && 21 <= k <= 23 && Scopes(token) != []
    requires FailsFirst(StepsOf(token, opts, key), k) || (k == 23 && FirstFailure(StepsOf(token, opts, key), None))
    ensures Answers(token, opts, key, GrantScope(Scopes(token), opts))
  {
    ScopeSteps(token, opts);
    var steps := StepsOf(token, opts, key);
    if k == 21 {
      assert steps[k].otherwise == SCOPE_DENIED;
    } else {
      assert steps[21].passes;
      if opts.tool.Some? {
        var i :| EndsAt(Scopes(token), opts.tool.value, i);
        assert k == 23 ==> steps[22].passes;
      }
    }
  }

  // ---------- What a valid passport guarantees ----------

  /** The sender constraints that the verifier asks for, or that the passport carries, hold. */
  ghost predicate Bound(vane: Vane, opts: Options) {
    && (opts.nonce.Some? ==> vane.nonce == Is(opts.nonce.value))
    && (opts.audience.Some? ==> vane.aud == Is(opts.audience.value))
    && (!vane.requestHash.Absent? ==> opts.requestHash.Some? && vane.requestHash == Is(opts.requestHash.value))
  }

  ghost predicate InForce(c: Claims, opts: Options) {
    && c.exp.Is? && opts.now <= c.exp.value + opts.skew
    && (c.nbf.Is? ==> c.nbf.value - opts.skew <= opts.now)
  }

  ghost predicate WellFormedClaims(c: Claims, opts: Options) {
    && c.aud.Is? && Str(Text("vane:passport:v1")) in c.aud.value
    && c.iss.Is? && opts.spiffe(c.iss.value) && c.sub.Is? && opts.spiffe(c.sub.value)
    && c.vane.Is? && c.vane.value.version.Supported?
    && c.vane.value.scopes.Is? && c.vane.value.scopes.value != []
    && c.vane.value.chain.Is? && c.vane.value.chain.value != []
    && Last(c.vane.value.chain.value) == Str(c.sub.value)
  }

  /** A passport is valid exactly when its header, signature, dates, claims and bindings are in order and its scopes
      cover the tool. */
  lemma ValidExactly(token: Token, opts: Options, key: JsString)
    ensures VerifyPassport(token, opts, key).Valid? <==>
              && opts.skew >= 0.0 && CheckHeader(token).None? && token.signedBy(key) && token.claims.Some?
              && InForce(token.claims.value, opts) && WellFormedClaims(token.claims.value, opts)
              && Bound(token.claims.value.vane.value, opts)
              && GrantScope(token.claims.value.vane.value.scopes.value, opts).Valid?
  {
  }

  /** The very second exp + leeway is the last at which a passport is valid: from a time at which it is, it stays valid up
      to and including that one, and no longer. */
  lemma LastValidSecond(token: Token, opts: Options, key: JsString, now: real)
    requires VerifyPassport(token, opts, key).Valid? && opts.now <= now
    ensures CheckHeader(token).None? && token.claims.Some? && token.claims.value.exp.Is?
    ensures VerifyPassport(token, opts.(now := now), key)
         == if now <= token.claims.value.exp.value + opts.skew then VerifyPassport(token, opts, key) else Invalid(TOKEN_EXPIRED)
  {
    ValidExactly(token, opts, key);
    ValidExactly(token, opts.(now := now), key);
  }

  // ---------- Several keys ----------

  /** The key enters through the signature alone: keys that do not find it bad agree in everything else. */
  lemma KeysAgree(token: Token, opts: Options, key: JsString, other: JsString)
    requires VerifyPassport(token, opts, key) != Invalid(SIGNATURE_INVALID)
    requires VerifyPassport(token, opts, other) != Invalid(SIGNATURE_INVALID)
    ensures VerifyPassport(token, opts, key) == VerifyPassport(token, opts, other)
  {
  }

  /** Stops at the first verdict other than a bad signature, and loses nothing by it: the passport is accepted if and
      only if some key accepts it, with the scope that every accepting key grants, whatever the order of the keys. */
  method VerifyPassportMultiKey(token: Token, opts: Options, keys: seq<JsString>) returns (r: Verdict)
    ensures r.Valid? <==> exists k :: k in keys && VerifyPassport(token, opts, k).Valid?
    ensures forall k :: k in keys && VerifyPassport(token, opts, k) != Invalid(SIGNATURE_INVALID) ==> r == VerifyPassport(token, opts, k)
    ensures (forall k :: k in keys ==> VerifyPassport(token, opts, k) == Invalid(SIGNATURE_INVALID)) ==> r == Invalid(SIGNATURE_INVALID)
  {
    for i := 0 to |keys|
      invariant forall j :: 0 <= j < i ==> VerifyPassport(token, opts, keys[j]) == Invalid(SIGNATURE_INVALID)
    {
      var result := VerifyPassport(token, opts, keys[i]);
      if result.Valid? || result.Throws? || result.code != SIGNATURE_INVALID {
        forall k | k in keys && VerifyPassport(token, opts, k) != Invalid(SIGNATURE_INVALID)
          ensures result == VerifyPassport(token, opts, k)
        {
          KeysAgree(token, opts, keys[i], k);
        }
        return result;
      }
    }
    return Invalid(SIGNATURE_INVALID);
  }
}
