/** From a request to an accepted token: the signing end and the verifying end undo each other. */
module EndToEnd {
  import opened Common
  import opened Keys
  import opened Options
  import opened Jwk
  import opened Json
  import opened GoValue
  import opened Double
  import opened Number
  import opened Fields
  import opened SortedObject
  import opened Compact
  import opened Signing
  import opened SigningLaws
  import opened Payload
  import opened Service
  import opened ServiceLaws
  import opened Verifying
  import Base64Url
  import JwksDocument

  /** A signer's published set is one a verifier can always be built from. */
  lemma PublishedSetAccepted(crypto: Crypto, opts: seq<Opt>)
    requires crypto.Sound() && Built(crypto, opts).Ok?
    ensures var jwks := [Built(crypto, opts).value.jwk]; Inoffensive(jwks, |jwks|)
  {
    hide Built;
    BuiltWell(crypto, opts);
  }

  /**
   A signed claim map is read from the token alone, with its header and its
   signed text, exactly when every number in it has a double; each number is
   then read as the double nearest to it.
   */
  lemma SignedParses(crypto: Crypto, s: SignerState, m: map<string, Value>, nonce: int)
    requires Signed(crypto, s, Ok(PrintMap(m)), nonce).Ok?
    ensures var input := SigningInput(PrintMap(Header(s)), PrintMap(m));
            var sig := Base64Url.Encode(crypto.sign(s.key, s.signMethod, input, nonce));
            ParseUnverified(Signed(crypto, s, Ok(PrintMap(m)), nonce).value)
            == if FiniteMap(m) then Some(Unverified(ReadBack(Header(s)), ReadBack(m), sig, input)) else None
  {
    hide PrintMap, SplitToken, Segment, ReadObject, ReadBack, Base64Url.Encode, Base64Url.Decode;
    var input := SigningInput(PrintMap(Header(s)), PrintMap(m));
    CompactRoundTrip(PrintMap(Header(s)), PrintMap(m), crypto.sign(s.key, s.signMethod, input, nonce));
    ReadPrinted(Header(s));
    ReadPrinted(m);
  }

  /** The names the verifier looks at in the claims. */
  const CHECKED_NAMES: set<string> := {"exp", "nbf", "iss", "aud"}

  /** The whole second a verifier reads a date as, by way of a double. */
  function ReadSeconds(t: int): int { DateSeconds(Round(t as real)) }

  /** Up to 2^53 seconds, which is beyond the year 285 million, that is the date itself. */
  lemma SmallDatesKept(t: int)
    requires IsSmall(t)
    ensures ReadSeconds(t) == t
  {
    hide Round, IsDouble;
    SmallIntegers(t);
  }

  lemma DateOfSeconds(m: map<string, Value>, name: string, t: int)
    requires Lookup(m, name) == Some(Seconds(t))
    ensures Date(ReadBack(m), name) == Ok(if t == 0 then None else Some(ReadSeconds(t)))
  {
    hide FormatInt, Round, IsDouble, DateSeconds;
    ReadBackNumber(m, name, t);
    SmallIntegers(0);
    SmallIntegers(1);
    SmallIntegers(-1);
    hide ReadBack;
    RoundStays(t as real, 1.0);
    RoundStays(t as real, -1.0);
  }

  lemma AudienceOfStrings(m: map<string, Value>, aud: seq<string>, expected: string)
    requires Lookup(m, "aud") == Some(Arr(Strings(aud)))
    ensures AudienceMatches(ReadBack(m), expected) <==> expected == "" || expected in aud
  {
    ReadBackStrings(m, "aud", aud);
    hide ReadBack;
    var items := ReadBack(m)["aud"].items;
    if expected in aud {
      var i :| 0 <= i < |aud| && aud[i] == expected;
      assert items[i] == GoString(expected);
    }
  }

  lemma ReadBackStrings(m: map<string, Value>, name: string, texts: seq<string>)
    requires Lookup(m, name) == Some(Arr(Strings(texts)))
    ensures name in ReadBack(m) && ReadBack(m)[name].GoSlice? && |ReadBack(m)[name].items| == |texts|
    ensures forall i :: 0 <= i < |texts| ==> ReadBack(m)[name].items[i] == GoString(texts[i])
  {
    var exact := Exact(Arr(Strings(texts)));
    ReadBackAt(m, name);
    hide ReadBack;
    forall i | 0 <= i < |texts| ensures Rounded(exact).items[i] == GoString(texts[i]) {
      assert exact.items[i] == GoString(texts[i]);
    }
  }

  /** The dates of a payload as a verifier reads them: 0 is no date, so no expiry, which is required, and no bound. */
  predicate InTime(r: Registered, t: int) {
    && r.exp != 0 && t < ReadSeconds(r.exp) * SECOND
    && (r.nbf == 0 || ReadSeconds(r.nbf) * SECOND <= t)
  }

  /** The token type is written over the claim of this name. */
  predicate Overlaid(s: SignerState, req: Request, name: string) { !req.AccessToken? && s.tokenTypeClaim == name }

  function StatedIssuer(s: SignerState, req: Request): string {
    if Overlaid(s, req, "iss") then TokenTypeOf(req) else s.issuer
  }

  function StatedAudience(s: SignerState, req: Request): seq<string> {
    if Overlaid(s, req, "aud") then [TokenTypeOf(req)] else req.common.audience
  }

  /** When a verifier's expectations admit a token, in terms of its request and signer. */
  predicate Admitted(s: SignerState, req: Request, r: Registered, issuer: string, audience: string, t: int) {
    && !Overlaid(s, req, "exp") && !Overlaid(s, req, "nbf") && InTime(r, t)
    && (issuer == "" || issuer == StatedIssuer(s, req))
    && (audience == "" || audience in StatedAudience(s, req))
  }

  /** What stands under the names a verifier looks at. */
  lemma CheckedClaims(s: SignerState, req: Request, env: Env)
    requires PayloadOf(s, req, env).Ok?
    ensures var m, r := PayloadOf(s, req, env).value, Claims(s, req, env).value.registered;
            var overlay := Str(TokenTypeOf(req));
            && Lookup(m, "exp") == Some(if Overlaid(s, req, "exp") then overlay else Seconds(r.exp))
            && Lookup(m, "nbf") == Some(if Overlaid(s, req, "nbf") then overlay else Seconds(r.nbf))
            && Lookup(m, "iss") == OptionalText(StatedIssuer(s, req))
            && Lookup(m, "aud") == Some(if Overlaid(s, req, "aud") then overlay else Arr(Strings(req.common.audience)))
  {
    hide WithTokenType, Requested, Seconds;
    var c := Claims(s, req, env).value;
    ClaimsOfRequest(s, req, env);
    StandardAreReserved();
    ClaimMapPointwise(c, "exp");
    ClaimMapPointwise(c, "nbf");
    ClaimMapPointwise(c, "iss");
    ClaimMapPointwise(c, "aud");
  }

  /** The claim checks, for every verifier and every signer. */
  lemma ClaimsPassExactly(s: SignerState, req: Request, env: Env, v: View, t: int)
    requires PayloadOf(s, req, env).Ok? && s.issuer != ""
    ensures ClaimsValid(ReadBack(PayloadOf(s, req, env).value), v, t)
       <==> Admitted(s, req, Claims(s, req, env).value.registered, v.expectedIssuer, v.expectedAudience, t)
  {
    assert Claims(s, req, env).Ok?;
    CheckedClaims(s, req, env);
    hide PayloadOf, Claims, Seconds, Strings, Unexpired, Started, IssuerMatches, AudienceMatches, TokenTypeOf, Overlaid;
    hide ReadSeconds, ReadBack, OptionalText, StatedIssuer, StatedAudience;
    var m, r := PayloadOf(s, req, env).value, Claims(s, req, env).value.registered;
    ExpiryChecked(m, r.exp, TokenTypeOf(req), Overlaid(s, req, "exp"), t);
    StartChecked(m, r.nbf, TokenTypeOf(req), Overlaid(s, req, "nbf"), t);
    IssuerChecked(m, StatedIssuer(s, req), v.expectedIssuer);
    AudienceChecked(m, s, req, v.expectedAudience);
  }

  lemma AudienceChecked(m: map<string, Value>, s: SignerState, req: Request, expected: string)
    requires var requested := Arr(Strings(req.common.audience));
             Lookup(m, "aud") == Some(if Overlaid(s, req, "aud") then Str(TokenTypeOf(req)) else requested)
    ensures AudienceMatches(ReadBack(m), expected) <==> expected == "" || expected in StatedAudience(s, req)
  {
    hide Strings, ReadBack, AudienceMatches, TokenTypeOf, Overlaid;
    if Overlaid(s, req, "aud") {
      AudienceOfString(m, TokenTypeOf(req), expected);
    } else {
      AudienceOfStrings(m, req.common.audience, expected);
    }
  }

  lemma ExpiryChecked(m: map<string, Value>, exp: int, tokenType: string, overlaid: bool, t: int)
    requires Lookup(m, "exp") == Some(if overlaid then Str(tokenType) else Seconds(exp))
    ensures Unexpired(ReadBack(m), t) <==> !overlaid && exp != 0 && t < ReadSeconds(exp) * SECOND
  {
    hide Seconds, ReadSeconds, ReadBack;
    if overlaid {
      ReadBackString(m, "exp", tokenType);
    } else {
      DateOfSeconds(m, "exp", exp);
    }
  }

  lemma StartChecked(m: map<string, Value>, nbf: int, tokenType: string, overlaid: bool, t: int)
    requires Lookup(m, "nbf") == Some(if overlaid then Str(tokenType) else Seconds(nbf))
    ensures Started(ReadBack(m), t) <==> !overlaid && (nbf == 0 || ReadSeconds(nbf) * SECOND <= t)
  {
    hide Seconds, ReadSeconds, ReadBack;
    if overlaid {
      ReadBackString(m, "nbf", tokenType);
    } else {
      DateOfSeconds(m, "nbf", nbf);
    }
  }

  lemma IssuerChecked(m: map<string, Value>, issuer: string, expected: string)
    requires Lookup(m, "iss") == OptionalText(issuer)
    ensures IssuerMatches(ReadBack(m), expected) <==> expected == "" || expected == issuer
  {
    hide ReadBack;
    ReadBackAt(m, "iss");
    if issuer != "" {
      ReadBackString(m, "iss", issuer);
    }
  }

  lemma AudienceOfString(m: map<string, Value>, aud: string, expected: string)
    requires Lookup(m, "aud") == Some(Str(aud))
    ensures AudienceMatches(ReadBack(m), expected) <==> expected == "" || expected == aud
  {
    hide ReadBack;
    ReadBackString(m, "aud", aud);
  }

  /** The keys of a set that holds the signer's JWK lead keyfunc to the very key it signed with. */
  lemma KeyFound(crypto: Crypto, s: SignerState, jwks: seq<Jwk>, vopts: seq<VerifierOption>, v: View)
    requires WellBuilt(crypto, s) && s.jwk in jwks && Describes(v, jwks, vopts)
    ensures KeyFor(crypto, v.keys, ReadBack(Header(s))) == Ok(s.key.pub)
    ensures s.signMethod in v.allowedAlgs && RegisteredMethod(s.signMethod)
  {
    hide PublicKeyOf, ReadBack;
    HeaderNamesKey(s);
  }

  lemma HeaderNamesKey(s: SignerState)
    ensures StringMember(ReadBack(Header(s)), "alg") == Some(s.signMethod)
    ensures StringMember(ReadBack(Header(s)), "kid") == Some(s.keyId)
  {
    ReadBackString(Header(s), "alg", s.signMethod);
    ReadBackString(Header(s), "kid", s.keyId);
  }

  /**
   End to end. A token issued by a built signer is accepted by a verifier built
   from any key set that holds the signer's JWK exactly when the verifier's
   expectations and the time admit it and its numbers have doubles; and the
   claims returned are the assembled ones, each number rounded to a double.
   */
  lemma IssuedTokenAccepted(
    crypto: Crypto, opts: seq<Opt>, req: Request, env: Env, jwks: seq<Jwk>, vopts: seq<VerifierOption>, v: View, t: int)
    requires crypto.Sound() && Built(crypto, opts).Ok?
    requires Issued(crypto, Built(crypto, opts).value, req, env).Ok?
    requires Inoffensive(jwks, |jwks|) && Describes(v, jwks, vopts) && Built(crypto, opts).value.jwk in jwks
    ensures var s := Built(crypto, opts).value;
            var outcome := Verified(crypto, v, Issued(crypto, s, req, env).value, t);
            && (outcome.Ok? <==>
                  && FinitePayload(s, req, env)
                  && Admitted(s, req, Claims(s, req, env).value.registered, v.expectedIssuer, v.expectedAudience, t))
            && (outcome.Ok? ==> outcome == Ok(ReadBack(PayloadOf(s, req, env).value)))
  {
    hide Built, WellBuilt, PrintMap, Claims, ParseUnverified, Checked, ClaimsValid, Admitted, KeyFor, ClaimMap,
      Base64Url.Encode, Base64Url.Decode, Inoffensive, Describes, SigningInput, ReadBack;
    var s := Built(crypto, opts).value;
    BuiltWell(crypto, opts);
    var m := ClaimMap(Claims(s, req, env).value).value;
    SignedParses(crypto, s, m, env.nonce);
    ClaimsPassExactly(s, req, env, v, t) by { BuiltIssuer(crypto, s); }
    SignedChecked(crypto, s, m, env.nonce, jwks, vopts, v, t);
  }

  /** The checks on a token this signer signed come down to those on its claims. */
  lemma SignedChecked(
    crypto: Crypto, s: SignerState, m: map<string, Value>, nonce: int,
    jwks: seq<Jwk>, vopts: seq<VerifierOption>, v: View, t: int)
    requires crypto.Sound() && WellBuilt(crypto, s) && CurveFits(s.key.pub, s.signMethod)
    requires Inoffensive(jwks, |jwks|) && Describes(v, jwks, vopts) && s.jwk in jwks
    ensures var input := SigningInput(PrintMap(Header(s)), PrintMap(m));
            var sig := Base64Url.Encode(crypto.sign(s.key, s.signMethod, input, nonce));
            var outcome := Checked(crypto, v, Unverified(ReadBack(Header(s)), ReadBack(m), sig, input), t);
            (outcome.Ok? <==> ClaimsValid(ReadBack(m), v, t)) && (outcome.Ok? ==> outcome == Ok(ReadBack(m)))
  {
    hide PrintMap, Checked, ClaimsValid, KeyFor, Base64Url.Encode, Base64Url.Decode, Inoffensive, Describes,
      SigningInput, WellBuilt, Header, CurveFits, ReadBack;
    KeyFound(crypto, s, jwks, vopts, v);
    var input := SigningInput(PrintMap(Header(s)), PrintMap(m));
    var octets := crypto.sign(s.key, s.signMethod, input, nonce);
    var u := Unverified(ReadBack(Header(s)), ReadBack(m), Base64Url.Encode(octets), input);
    HonestSignature(crypto, s, input, nonce);
    Base64Url.DecodeEncode(octets);
    if ClaimsValid(u.claims, v, t) {
      HeaderNamesKey(s);
      PassesIsChecked(crypto, v, u, s.signMethod, octets, s.key.pub, t);
    }
    if Checked(crypto, v, u, t).Ok? {
      var _, _, _ := CheckedPasses(crypto, v, u, t);
    }
  }

  /**
   When the claims returned are the assembled ones, no more and no less: exactly
   when all their numbers are doubles. Dates up to 2^53 seconds always are, so
   then only the caller's own payload decides.
   */
  lemma ClaimsReturnedExactly(
    crypto: Crypto, opts: seq<Opt>, req: Request, env: Env, jwks: seq<Jwk>, vopts: seq<VerifierOption>, v: View, t: int)
    requires crypto.Sound() && Built(crypto, opts).Ok?
    requires Issued(crypto, Built(crypto, opts).value, req, env).Ok?
    requires Inoffensive(jwks, |jwks|) && Describes(v, jwks, vopts) && Built(crypto, opts).value.jwk in jwks
    requires Verified(crypto, v, Issued(crypto, Built(crypto, opts).value, req, env).value, t).Ok?
    ensures var s := Built(crypto, opts).value;
            var returned := Verified(crypto, v, Issued(crypto, s, req, env).value, t).value;
            && (returned == ExactMap(PayloadOf(s, req, env).value) <==> DoublePayload(s, req, env))
            && (SmallDates(Claims(s, req, env).value) ==> (DoublePayload(s, req, env) <==> DoubleVariant(req)))
  {
    hide Built, Verified, Inoffensive, Describes, Issued, Claims, PayloadOf, Admitted;
    hide FiniteMap, ReadBack, AllDoublesMap, ExactMap, SmallDates, DoubleVariant;
    var s := Built(crypto, opts).value;
    IssuedTokenAccepted(crypto, opts, req, env, jwks, vopts, v, t);
    IssuedHasPayload(crypto, s, req, env);
    ReadBackExactly(PayloadOf(s, req, env).value);
    if SmallDates(Claims(s, req, env).value) {
      PayloadDoubles(s, req, env);
    }
  }

  lemma IssuedHasPayload(crypto: Crypto, s: SignerState, req: Request, env: Env)
    requires Issued(crypto, s, req, env).Ok?
    ensures Claims(s, req, env).Ok? && PayloadOf(s, req, env).Ok?
  {
    hide Claims, ClaimMap;
  }

  /**
   Acceptance in terms of the clock reading at issue and the ttl, for a token type
   laid over none of the checked names. From the epoch's second second on, and up
   to 2^53 seconds, a token is accepted exactly within its window; outside, a date
   of 0 counts as none, and a date is read as the double nearest to it.
   */
  lemma AcceptedInWindow(
    crypto: Crypto, opts: seq<Opt>, req: Request, env: Env, jwks: seq<Jwk>, vopts: seq<VerifierOption>, v: View, t: int)
    requires crypto.Sound() && Built(crypto, opts).Ok?
    requires Issued(crypto, Built(crypto, opts).value, req, env).Ok?
    requires req.AccessToken? || Built(crypto, opts).value.tokenTypeClaim !in CHECKED_NAMES
    requires Inoffensive(jwks, |jwks|) && Describes(v, jwks, vopts) && Built(crypto, opts).value.jwk in jwks
    requires v.expectedIssuer == "" || v.expectedIssuer == Built(crypto, opts).value.issuer
    requires v.expectedAudience == "" || v.expectedAudience in req.common.audience
    requires FinitePayload(Built(crypto, opts).value, req, env)
    ensures var s := Built(crypto, opts).value;
            var accepted := Verified(crypto, v, Issued(crypto, s, req, env).value, t).Ok?;
            var issue, now := env.now / SECOND, t / SECOND;
            var expiry := (env.now + EffectiveTtl(s, req.common.ttl)) / SECOND;
            && (accepted <==>
                  expiry != 0 && now < ReadSeconds(expiry) && (issue == 0 || ReadSeconds(issue) <= now))
            && (env.now >= SECOND && IsSmall(expiry) ==> (accepted <==> issue <= now < expiry))
  {
    hide Built, Verified, Inoffensive, Describes, Issued, Claims, InTime, EffectiveTtl, ReadSeconds;
    hide Admitted, FinitePayload, ReadBack, PayloadOf;
    var s := Built(crypto, opts).value;
    IssuedTokenAccepted(crypto, opts, req, env, jwks, vopts, v, t);
    BuiltPositiveTtl(crypto, opts);
    IssuedHasPayload(crypto, s, req, env);
    PlainAdmitted(s, req, Claims(s, req, env).value.registered, v.expectedIssuer, v.expectedAudience, t);
    InTimeOnClock(s, req, env, t);
  }

  lemma PlainAdmitted(s: SignerState, req: Request, r: Registered, issuer: string, audience: string, t: int)
    requires req.AccessToken? || s.tokenTypeClaim !in CHECKED_NAMES
    requires issuer == "" || issuer == s.issuer
    requires audience == "" || audience in req.common.audience
    ensures Admitted(s, req, r, issuer, audience, t) <==> InTime(r, t)
  {
    hide InTime;
  }

  lemma InTimeOnClock(s: SignerState, req: Request, env: Env, t: int)
    requires Claims(s, req, env).Ok? && s.defaultTtl > 0
    ensures var issue, now := env.now / SECOND, t / SECOND;
            var expiry := (env.now + EffectiveTtl(s, req.common.ttl)) / SECOND;
            && (InTime(Claims(s, req, env).value.registered, t)
                <==> expiry != 0 && now < ReadSeconds(expiry) && (issue == 0 || ReadSeconds(issue) <= now))
            && (env.now >= SECOND ==> issue > 0 && expiry > 0)
            && (env.now >= SECOND && IsSmall(expiry) ==> ReadSeconds(issue) == issue && ReadSeconds(expiry) == expiry)
  {
    hide Requested, Base64Url.Encode, ReadSeconds;
    var r := Claims(s, req, env).value.registered;
    assert r == Base(s, req.common, env).value;
    WholeSeconds(t, ReadSeconds(r.exp));
    WholeSeconds(t, ReadSeconds(r.nbf));
    if env.now >= SECOND && IsSmall(r.exp) {
      SmallDatesKept(r.exp);
      SmallDatesKept(r.nbf);
    }
  }

  /** The set may also come from the published text: a verifier built from it decides the same. */
  lemma PublishedTextVerifies(
    crypto: Crypto, opts: seq<Opt>, req: Request, env: Env, vopts: seq<VerifierOption>, v: View, t: int)
    requires crypto.Sound() && Built(crypto, opts).Ok?
    requires Issued(crypto, Built(crypto, opts).value, req, env).Ok?
    requires var text := JwksDocument.Marshal(JwksDocument.List([Built(crypto, opts).value.jwk]));
             JwksDocument.Unmarshal(text).Some? ==> Describes(v, JwksDocument.Unmarshal(text).value, vopts)
    ensures var s := Built(crypto, opts).value;
            var read := JwksDocument.Unmarshal(JwksDocument.Marshal(JwksDocument.List([s.jwk])));
            var outcome := Verified(crypto, v, Issued(crypto, s, req, env).value, t);
            && read == Some([s.jwk]) && Inoffensive(read.value, |read.value|)
            && (outcome.Ok? <==>
                  && FinitePayload(s, req, env)
                  && Admitted(s, req, Claims(s, req, env).value.registered, v.expectedIssuer, v.expectedAudience, t))
            && (outcome.Ok? ==> outcome == Ok(ReadBack(PayloadOf(s, req, env).value)))
  {
    hide Built, Verified, Inoffensive, Describes, Issued, Claims, Admitted, PayloadOf, FinitePayload, ReadBack;
    hide JwksDocument.Unmarshal, JwksDocument.Marshal;
    var s := Built(crypto, opts).value;
    JwksDocument.UnmarshalMarshal(JwksDocument.List([s.jwk]));
    PublishedSetAccepted(crypto, opts);
    IssuedTokenAccepted(crypto, opts, req, env, [s.jwk], vopts, v, t);
  }

  /** A token is refused, at every time and by any primitives, by every verifier whose set lacks its signer's kid. */
  lemma UnknownSignerRefused(
    crypto: Crypto, other: Crypto, s: SignerState, req: Request, env: Env,
    jwks: seq<Jwk>, vopts: seq<VerifierOption>, v: View, t: int)
    requires Issued(crypto, s, req, env).Ok?
    requires Describes(v, jwks, vopts) && forall k :: k in jwks ==> k.kid != s.keyId
    ensures Verified(other, v, Issued(crypto, s, req, env).value, t).Err?
  {
    hide PrintMap, Claims, ParseUnverified, Checked, ClaimsValid, ClaimMap, Base64Url.Encode, SigningInput, ReadBack;
    hide PublicKeyOf, Header, SignatureValid, RegisteredMethod;
    var m := ClaimMap(Claims(s, req, env).value).value;
    SignedParses(crypto, s, m, env.nonce);
    var parsed := ParseUnverified(Issued(crypto, s, req, env).value);
    if parsed.Some? && Checked(other, v, parsed.value, t).Ok? {
      HeaderNamesKey(s);
      var _, _, _ := CheckedPasses(other, v, parsed.value, t);
    }
  }

  // ----- token types over checked claims -----

  /** The outcome of verifying an issued token, by any verifier at all, is that of checking its own claims. */
  lemma IssuedTokenChecked(crypto: Crypto, opts: seq<Opt>, req: Request, env: Env, v: View, t: int)
    requires Built(crypto, opts).Ok? && Issued(crypto, Built(crypto, opts).value, req, env).Ok?
    ensures var s := Built(crypto, opts).value;
            PayloadOf(s, req, env).Ok?
            && (Verified(crypto, v, Issued(crypto, s, req, env).value, t).Ok?
                ==> ClaimsValid(ReadBack(PayloadOf(s, req, env).value), v, t))
  {
    hide Built, PrintMap, Claims, ParseUnverified, Checked, ClaimsValid, ClaimMap, Base64Url.Encode, SigningInput;
    hide ReadBack;
    var s := Built(crypto, opts).value;
    var m := ClaimMap(Claims(s, req, env).value).value;
    SignedParses(crypto, s, m, env.nonce);
    var parsed := ParseUnverified(Issued(crypto, s, req, env).value);
    if parsed.Some? && Checked(crypto, v, parsed.value, t).Ok? {
      var _, _, _ := CheckedPasses(crypto, v, parsed.value, t);
    }
  }

  /** A token type written over a date: no verifier, whatever its keys and expectations, ever accepts the token. */
  lemma OverlaidDateRejected(crypto: Crypto, opts: seq<Opt>, req: Request, env: Env, v: View, t: int)
    requires Built(crypto, opts).Ok? && Issued(crypto, Built(crypto, opts).value, req, env).Ok?
    requires Overlaid(Built(crypto, opts).value, req, "exp") || Overlaid(Built(crypto, opts).value, req, "nbf")
    ensures Verified(crypto, v, Issued(crypto, Built(crypto, opts).value, req, env).value, t).Err?
  {
    hide Built, Claims, Verified, Issued, PayloadOf;
    IssuedTokenChecked(crypto, opts, req, env, v, t);
    OverlaysPresent(Built(crypto, opts).value, req, env);
  }

  /**
   A token type written over iss or aud: the token passes for that claim exactly
   when the verifier expects nothing of it, or expects the type.
   */
  lemma OverlaidTokenExactly(
    crypto: Crypto, opts: seq<Opt>, req: Request, env: Env, jwks: seq<Jwk>, vopts: seq<VerifierOption>, v: View, t: int)
    requires crypto.Sound() && Built(crypto, opts).Ok?
    requires Issued(crypto, Built(crypto, opts).value, req, env).Ok?
    requires Inoffensive(jwks, |jwks|) && Describes(v, jwks, vopts) && Built(crypto, opts).value.jwk in jwks
    ensures var s := Built(crypto, opts).value;
            var accepted := Verified(crypto, v, Issued(crypto, s, req, env).value, t).Ok?;
            var inTime := InTime(Claims(s, req, env).value.registered, t) && FinitePayload(s, req, env);
            && (Overlaid(s, req, "iss") ==>
                  (accepted <==> inTime && v.expectedIssuer in {"", TokenTypeOf(req)}
                                 && (v.expectedAudience == "" || v.expectedAudience in req.common.audience)))
            && (Overlaid(s, req, "aud") ==>
                  (accepted <==> inTime && v.expectedIssuer in {"", s.issuer}
                                 && v.expectedAudience in {"", TokenTypeOf(req)}))
  {
    hide Built, Verified, Inoffensive, Describes, Issued, Claims, InTime;
    IssuedTokenAccepted(crypto, opts, req, env, jwks, vopts, v, t);
  }

  /** A verifier that trusts a signer and expects its issuer and a requested audience accepts its token in time. */
  ghost predicate Honoured(
    crypto: Crypto, s: SignerState, req: Request, env: Env, jwks: seq<Jwk>, vopts: seq<VerifierOption>, v: View, t: int)
  {
    && Issued(crypto, s, req, env).Ok?
    && Inoffensive(jwks, |jwks|) && Describes(v, jwks, vopts) && s.jwk in jwks
    && (v.expectedIssuer == "" || v.expectedIssuer == s.issuer)
    && (v.expectedAudience == "" || v.expectedAudience in req.common.audience)
    && InTime(Claims(s, req, env).value.registered, t) && FinitePayload(s, req, env)
    ==> Verified(crypto, v, Issued(crypto, s, req, env).value, t).Ok?
  }

  /**
   For which signers every readable token is honoured: those whose token-type claim is
   none of the names a verifier checks, and those that never sign at all.
   */
  lemma HonouredExactly(crypto: Crypto, opts: seq<Opt>)
    requires crypto.Sound() && Built(crypto, opts).Ok?
    ensures var s := Built(crypto, opts).value;
            (forall req, env, jwks, vopts, v, t :: Honoured(crypto, s, req, env, jwks, vopts, v, t))
            <==> s.tokenTypeClaim !in CHECKED_NAMES || !CurveFits(s.key.pub, s.algorithm)
  {
    hide Built, Honoured, CurveFits;
    var s := Built(crypto, opts).value;
    if s.tokenTypeClaim !in CHECKED_NAMES || !CurveFits(s.key.pub, s.algorithm) {
      forall req, env, jwks, vopts, v, t ensures Honoured(crypto, s, req, env, jwks, vopts, v, t) {
        TokenHonoured(crypto, opts, req, env, jwks, vopts, v, t);
      }
    } else {
      var v, vopts := WitnessRefused(crypto, opts);
      assert !Honoured(crypto, s, Witness(s), WITNESS_ENV, [s.jwk], vopts, v, WITNESS_ENV.now);
    }
  }

  lemma TokenHonoured(
    crypto: Crypto, opts: seq<Opt>, req: Request, env: Env, jwks: seq<Jwk>, vopts: seq<VerifierOption>, v: View, t: int)
    requires crypto.Sound() && Built(crypto, opts).Ok?
    requires var s := Built(crypto, opts).value;
             s.tokenTypeClaim !in CHECKED_NAMES || !CurveFits(s.key.pub, s.algorithm)
    ensures Honoured(crypto, Built(crypto, opts).value, req, env, jwks, vopts, v, t)
  {
    hide Built, Verified, Inoffensive, Describes, Issued, Claims, InTime, CurveFits;
    var s := Built(crypto, opts).value;
    IssuesExactly(crypto, opts, req, env);
    if Issued(crypto, s, req, env).Ok? && Inoffensive(jwks, |jwks|) && Describes(v, jwks, vopts) && s.jwk in jwks {
      IssuedTokenAccepted(crypto, opts, req, env, jwks, vopts, v, t);
    }
  }

  lemma WitnessRefused(crypto: Crypto, opts: seq<Opt>) returns (v: View, vopts: seq<VerifierOption>)
    requires crypto.Sound() && Built(crypto, opts).Ok?
    requires var s := Built(crypto, opts).value;
             s.tokenTypeClaim in CHECKED_NAMES && CurveFits(s.key.pub, s.algorithm)
    ensures var s := Built(crypto, opts).value;
            !Honoured(crypto, s, Witness(s), WITNESS_ENV, [s.jwk], vopts, v, WITNESS_ENV.now)
  {
    hide Built, Verified, Inoffensive, Describes, Issued, Claims, PayloadOf;
    hide InTime, CurveFits, FinitePayload, HeldDates;
    var s := Built(crypto, opts).value;
    v := View(map[s.jwk.kid := s.jwk], [s.jwk.alg], s.issuer, "y");
    vopts := [ExpectIssuer(s.issuer), ExpectAudience("y")];
    BothExpected(s.issuer, "y");
    SampleView(v, s.jwk, vopts);
    PublishedSetAccepted(crypto, opts);
    WitnessClaims(s);
    IssuesExactly(crypto, opts, Witness(s), WITNESS_ENV);
    BuiltWell(crypto, opts);
    PlainPayload(s, Witness(s), WITNESS_ENV);
    IssuedTokenAccepted(crypto, opts, Witness(s), WITNESS_ENV, [s.jwk], vopts, v, WITNESS_ENV.now);
    assert (s.issuer + "..")[|s.issuer|] == '.';
  }

  /** A request without a variant always has a payload, and its numbers are its dates. */
  lemma PlainPayload(s: SignerState, req: Request, env: Env)
    requires Claims(s, req, env).Ok? && HeldDates(Claims(s, req, env).value) && VariantOf(req).None?
    ensures PayloadOf(s, req, env).Ok? && FinitePayload(s, req, env)
  {
    hide Claims, FiniteMap, HeldDates, WithTokenType;
    ClaimsOfRequest(s, req, env);
    PayloadFinite(s, req, env);
  }

  lemma WitnessClaims(s: SignerState)
    ensures Requested(s, Witness(s)).Ok? && Claims(s, Witness(s), WITNESS_ENV).Ok?
    ensures InTime(Claims(s, Witness(s), WITNESS_ENV).value.registered, WITNESS_ENV.now)
    ensures HeldDates(Claims(s, Witness(s), WITNESS_ENV).value)
  {
    WitnessDates(s);
    hide Claims, ReadSeconds;
    SmallDatesKept(1_700_000_000);
    SmallDatesKept(1_700_000_060);
  }

  lemma WitnessDates(s: SignerState)
    ensures Requested(s, Witness(s)).Ok? && Claims(s, Witness(s), WITNESS_ENV).Ok?
    ensures var c := Claims(s, Witness(s), WITNESS_ENV).value;
            && c.registered.exp == 1_700_000_060 && c.registered.nbf == c.registered.iat == 1_700_000_000
            && c.authTime == 0
  {
    hide Base64Url.Encode;
  }

  lemma BuiltIssuer(crypto: Crypto, s: SignerState)
    requires WellBuilt(crypto, s)
    ensures s.issuer != ""
  {
  }

  lemma HonestSignature(crypto: Crypto, s: SignerState, input: string, nonce: int)
    requires crypto.Sound() && WellBuilt(crypto, s) && CurveFits(s.key.pub, s.signMethod)
    ensures SignatureValid(crypto, s.key.pub, s.signMethod, input, crypto.sign(s.key, s.signMethod, input, nonce))
  {
  }

  lemma BothExpected(iss: string, aud: string)
    ensures ExpectedIssuer([ExpectIssuer(iss), ExpectAudience(aud)]) == iss
    ensures ExpectedAudience([ExpectIssuer(iss), ExpectAudience(aud)]) == aud
  {
    assert [ExpectIssuer(iss), ExpectAudience(aud)][..1] == [ExpectIssuer(iss)];
  }

  /**
   The self-test the package documents: build a signer, issue a token, build a
   verifier from the published keys, and verify. For every option list, request,
   audience asked for and time it ends well exactly when the signer is built,
   the token is issued, and the verifier's expectations and the time admit it.
   */
  method SelfTest(crypto: Crypto, opts: seq<Opt>, req: Request, env: Env, audience: string, t: int)
    returns (accepted: bool)
    requires crypto.Sound()
    ensures accepted <==>
              && Built(crypto, opts).Ok?
              && var s := Built(crypto, opts).value;
                 && Issued(crypto, s, req, env).Ok?
                 && FinitePayload(s, req, env)
                 && Admitted(s, req, Claims(s, req, env).value.registered, s.issuer, audience, t)
  {
    hide Built, Claims, Verified, Admitted, Inoffensive;
    var signer := NewSigner(crypto, opts);
    if signer.Err? {
      return false;
    }
    ghost var s := Built(crypto, opts).value;
    var service := new TokenService(signer.value);
    var token := service.Issue(crypto, req, env);
    if token.Err? {
      return false;
    }
    PublishedSetAccepted(crypto, opts);
    var keys := signer.value.Jwks();
    var vopts := [ExpectIssuer(signer.value.issuer), ExpectAudience(audience)];
    var verifier := NewVerifier(keys[..], vopts);
    assert keys[..] == [s.jwk];
    BothExpected(s.issuer, audience);
    IssuedTokenAccepted(crypto, opts, req, env, keys[..], vopts, verifier.value.Value(), t);
    var outcome := verifier.value.Verify(crypto, token.value, t);
    accepted := outcome.Ok?;
  }

  // ----- one run -----

  const SAMPLE_ENV := Env(1_700_000_000 * SECOND, Some([0, 1, 2, 3, 4, 5, 6, 7, 8, 9, 10, 11, 12, 13, 14, 15]), 0)

  function SampleRequest(): Request {
    AccessToken(CommonRequest("subject", ["service"], 0, ZERO_TIME, []), "client", "", [], "", "", "", "", "", None)
  }

  /** The hypotheses of the results above can be met: this signer, request and verifier reach acceptance. */
  lemma SampleRunAccepted() returns (v: View)
    ensures var crypto := CurveCrypto(P256);
            && crypto.Sound() && Built(crypto, ES256_OPTIONS).Ok?
            && var s := Built(crypto, ES256_OPTIONS).value;
               && Issued(crypto, s, SampleRequest(), SAMPLE_ENV).Ok?
               && Inoffensive([s.jwk], 1)
               && Describes(v, [s.jwk], [ExpectIssuer("issuer"), ExpectAudience("service")])
               && Verified(crypto, v, Issued(crypto, s, SampleRequest(), SAMPLE_ENV).value, SAMPLE_ENV.now).Ok?
  {
    hide Built, Issued, Verified, WellBuilt, Claims, PayloadOf, Requested, InTime, Inoffensive, Describes;
    hide Crypto.Sound, CurveCrypto, FinitePayload, HeldDates;
    var crypto := CurveCrypto(P256);
    Es256Built(P256);
    var s := Built(crypto, ES256_OPTIONS).value;
    SampleClaims(s);
    IssuesExactly(crypto, ES256_OPTIONS, SampleRequest(), SAMPLE_ENV);
    PublishedSetAccepted(crypto, ES256_OPTIONS);
    BothExpected("issuer", "service");
    v := View(map[s.jwk.kid := s.jwk], [s.jwk.alg], "issuer", "service");
    var vopts := [ExpectIssuer("issuer"), ExpectAudience("service")];
    SampleView(v, s.jwk, vopts);
    PlainPayload(s, SampleRequest(), SAMPLE_ENV);
    IssuedTokenAccepted(crypto, ES256_OPTIONS, SampleRequest(), SAMPLE_ENV, [s.jwk], vopts, v, SAMPLE_ENV.now);
  }

  lemma SampleView(v: View, k: Jwk, vopts: seq<VerifierOption>)
    requires v == View(map[k.kid := k], [k.alg], ExpectedIssuer(vopts), ExpectedAudience(vopts))
    ensures Describes(v, [k], vopts)
  {
  }

  lemma SampleClaims(s: SignerState)
    requires s.defaultTtl == 5 * 60 * SECOND && s.tokenTypeClaim == "token_type"
    ensures Requested(s, SampleRequest()).Ok? && Claims(s, SampleRequest(), SAMPLE_ENV).Ok?
    ensures InTime(Claims(s, SampleRequest(), SAMPLE_ENV).value.registered, SAMPLE_ENV.now)
    ensures HeldDates(Claims(s, SampleRequest(), SAMPLE_ENV).value)
  {
    SampleDates(s);
    hide Claims, ReadSeconds;
    SmallDatesKept(1_700_000_000);
    SmallDatesKept(1_700_000_300);
  }

  lemma SampleDates(s: SignerState)
    requires s.defaultTtl == 5 * 60 * SECOND && s.tokenTypeClaim == "token_type"
    ensures Requested(s, SampleRequest()).Ok? && Claims(s, SampleRequest(), SAMPLE_ENV).Ok?
    ensures var c := Claims(s, SampleRequest(), SAMPLE_ENV).value;
            && c.registered.exp == 1_700_000_300 && c.registered.nbf == c.registered.iat == 1_700_000_000
            && c.authTime == 0
  {
    hide Base64Url.Encode;
  }
}