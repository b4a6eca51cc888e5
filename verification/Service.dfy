/** The token service: what each kind of request is checked for, and the claims it is turned into. */
module Service {
  import opened Common
  import opened Keys
  import opened Options
  import opened Signing
  import opened Payload
  import Base64Url

  const RESERVED_CLAIM_NAMES: set<string> := {
    "iss", "sub", "aud", "exp", "nbf", "iat", "jti",
    "acr", "amr", "auth_time",
    "client_id", "scope", "roles",
    "name", "email", "preferred_username",
    "groups", "entitlements", "azp", "cnf", "sid",
    "given_name", "family_name"
  }

  /** time.Time's zero value, 1 January of year 1, in nanoseconds since the epoch. */
  const ZERO_TIME := -62_135_596_800 * SECOND

  /** Times and durations are nanoseconds; a ttl of zero or less asks for the default. */
  datatype CommonRequest = CommonRequest(
    subject: string, audience: seq<string>, ttl: int, authTime: int, amr: seq<string>)

  datatype Request =
    | Eidas(common: CommonRequest, loa: string, person: Variant)
    | Digid(common: CommonRequest, level: string, person: Variant)
    | Eherkenning(common: CommonRequest, class_: string, organisation: Variant)
    | Custom(common: CommonRequest, tokenType: string, claimsKey: string, acr: string, claims: Option<Variant>)
    | AccessToken(common: CommonRequest, clientId: string, scope: string, roles: seq<string>, name: string,
                  email: string, preferredUsername: string, acr: string, claimsKey: string, claims: Option<Variant>)

  /** What issuing reads from outside: the clock, sixteen random octets or a failure, the signature's randomness. */
  datatype Env = Env(now: int, random: Option<seq<byte>>, nonce: int)

  const LOA_LOW := "http://eidas.europa.eu/LoA/low"
  const LOA_SUBSTANTIAL := "http://eidas.europa.eu/LoA/substantial"
  const LOA_HIGH := "http://eidas.europa.eu/LoA/high"

  function DigidAcr(level: string): string {
    if level == "substantieel" then LOA_SUBSTANTIAL else if level == "hoog" then LOA_HIGH else LOA_LOW
  }

  function EherkenningAcr(class_: string): string {
    if class_ == "urn:etoegang:core:assurance-class:loa3" then LOA_SUBSTANTIAL
    else if class_ == "urn:etoegang:core:assurance-class:loa4" then LOA_HIGH
    else LOA_LOW
  }

  /** A claim set with only the variant-specific parts filled in. */
  function VariantClaims(acr: string, tokenType: string, variantKey: string, variant: Option<Variant>): TokenClaims {
    TokenClaims(Registered("", "", [], 0, 0, 0, ""), acr, [], 0, "", "", [], "", "", "",
                tokenType, "", variantKey, variant)
  }

  /** checkNested. */
  function NestedProblem(s: SignerState, key: string, payload: Option<Variant>): Option<Error> {
    if payload.Some? && key == "" then Some(MissingClaimsKey)
    else if key != "" && (key in RESERVED_CLAIM_NAMES || key == s.tokenTypeClaim) then Some(ReservedClaimsKey(key))
    else if payload.Some? && !payload.value.valid then Some(InvalidPayload)
    else None
  }

  /** The checks and the variant-specific claims of the five Issue methods. */
  function Requested(s: SignerState, req: Request): Result<TokenClaims, Error> {
    match req
    case Eidas(_, loa, person) =>
      if loa !in {LOA_LOW, LOA_SUBSTANTIAL, LOA_HIGH} then Err(InvalidAssuranceLevel)
      else if !person.valid then Err(InvalidPayload)
      else Ok(VariantClaims(loa, "eidas", "eidas", Some(person)))
    case Digid(_, level, person) =>
      if !person.valid then Err(InvalidPayload)
      else Ok(VariantClaims(DigidAcr(level), "digid", "digid", Some(person)))
    case Eherkenning(_, class_, organisation) =>
      if !organisation.valid then Err(InvalidPayload)
      else Ok(VariantClaims(EherkenningAcr(class_), "eherkenning", "eherkenning", Some(organisation)))
    case Custom(_, tokenType, claimsKey, acr, claims) =>
      if tokenType == "" then Err(MissingTokenType)
      else
        var problem := NestedProblem(s, claimsKey, claims);
        if problem.Some? then Err(problem.value) else Ok(VariantClaims(acr, tokenType, claimsKey, claims))
    case AccessToken(_, clientId, scope, roles, name, email, preferredUsername, acr, claimsKey, claims) =>
      if clientId == "" then Err(MissingClientId)
      else
        var problem := NestedProblem(s, claimsKey, claims);
        if problem.Some? then Err(problem.value)
        else Ok(VariantClaims(acr, "", claimsKey, claims).(
          clientId := clientId, scope := scope, roles := roles, name := name, email := email,
          preferredUsername := preferredUsername))
  }

  /** jwt.NewNumericDate: truncation to the whole second before or at the time. */
  function NumericDate(t: int): int { t / SECOND }

  function EffectiveTtl(s: SignerState, ttl: int): int { if ttl <= 0 then s.defaultTtl else ttl }

  /** base: the registered claims every variant shares. */
  function Base(s: SignerState, c: CommonRequest, env: Env): Result<Registered, Error> {
    if c.subject == "" then Err(MissingSubject)
    else if c.audience == [] then Err(MissingAudience)
    else if env.random.None? then Err(NoRandomness)
    else Ok(Registered(
      s.issuer, c.subject, c.audience,
      NumericDate(env.now + EffectiveTtl(s, c.ttl)), NumericDate(env.now), NumericDate(env.now),
      Base64Url.Encode(env.random.value)))
  }

  /** authTime. */
  function AuthTime(t: int): int { if t == ZERO_TIME then 0 else t / SECOND }

  /** issue, up to signing: the shared claims are filled in. */
  function Completed(s: SignerState, c: CommonRequest, env: Env, tc: TokenClaims): Result<TokenClaims, Error> {
    var base :- Base(s, c, env);
    Ok(tc.(registered := base, amr := c.amr, authTime := AuthTime(c.authTime), tokenTypeClaim := s.tokenTypeClaim))
  }

  /** The full claim set of a request. */
  function Claims(s: SignerState, req: Request, env: Env): Result<TokenClaims, Error> {
    var tc :- Requested(s, req);
    Completed(s, req.common, env, tc)
  }

  /** An Issue call. */
  function Issued(crypto: Crypto, s: SignerState, req: Request, env: Env): Result<string, Error> {
    var tc :- Claims(s, req, env);
    Signed(crypto, s, PayloadText(tc), env.nonce)
  }

  class TokenService {
    var signer: Signer

    /** NewService. */
    constructor (signer: Signer)
      ensures this.signer == signer
    {
      this.signer := signer;
    }

    /** An Issue call: the variant's checks and claims, then issue fills in the shared ones and signs. */
    method Issue(crypto: Crypto, req: Request, env: Env) returns (r: Result<string, Error>)
      ensures r == Issued(crypto, signer.State(), req, env)
    {
      hide Requested, PayloadText, Signed;
      var state := signer.State();
      var requested := Requested(state, req);
      if requested.Err? {
        return Err(requested.error);
      }
      var tc := requested.value;
      var base := Base(state, req.common, env);
      if base.Err? {
        return Err(base.error);
      }
      tc := tc.(registered := base.value);
      tc := tc.(amr := req.common.amr);
      tc := tc.(authTime := AuthTime(req.common.authTime));
      tc := tc.(tokenTypeClaim := signer.tokenTypeClaim);
      var payload := MarshalJson(tc);
      r := signer.Sign(crypto, payload, env.nonce);
    }
  }
}
