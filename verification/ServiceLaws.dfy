/** What an issued payload holds: nothing overwritten, nothing added, and a tight validity window. */
module ServiceLaws {
  import opened Common
  import opened Keys
  import opened Options
  import opened Json
  import opened Double
  import opened GoValue
  import opened Number
  import opened Fields
  import opened Signing
  import opened SigningLaws
  import opened Payload
  import opened Service
  import Base64Url
  import Compact
  import JsonParser
  import SortedObject

  /** The key a variant is nested under, or the empty string. */
  function VariantKey(req: Request): string {
    match req
    case Eidas(_, _, _) => "eidas"
    case Digid(_, _, _) => "digid"
    case Eherkenning(_, _, _) => "eherkenning"
    case Custom(_, _, key, _, _) => key
    case AccessToken(_, _, _, _, _, _, _, _, key, _) => key
  }

  function VariantOf(req: Request): Option<Variant> {
    match req
    case Eidas(_, _, person) => Some(person)
    case Digid(_, _, person) => Some(person)
    case Eherkenning(_, _, organisation) => Some(organisation)
    case Custom(_, _, _, _, claims) => claims
    case AccessToken(_, _, _, _, _, _, _, _, _, claims) => claims
  }

  function TokenTypeOf(req: Request): string {
    match req
    case Eidas(_, _, _) => "eidas"
    case Digid(_, _, _) => "digid"
    case Eherkenning(_, _, _) => "eherkenning"
    case Custom(_, tokenType, _, _, _) => tokenType
    case AccessToken(_, _, _, _, _, _, _, _, _, _) => ""
  }

  predicate BuiltIn(req: Request) { req.Eidas? || req.Digid? || req.Eherkenning? }

  lemma ClaimsOfRequest(s: SignerState, req: Request, env: Env)
    requires Claims(s, req, env).Ok?
    ensures var c := Claims(s, req, env).value;
            && c.tokenType == TokenTypeOf(req) && c.variantKey == VariantKey(req) && c.variant == VariantOf(req)
            && c.tokenTypeClaim == s.tokenTypeClaim
            && (c.variant.Some? ==> c.variantKey != "")
            && (c.tokenType == "" <==> req.AccessToken?)
            && (!BuiltIn(req) && c.variantKey != "" ==>
                  c.variantKey !in RESERVED_CLAIM_NAMES && c.variantKey != s.tokenTypeClaim)
  {
  }

  // ----- requests -----

  /** Which requests pass the checks of their Issue method. */
  lemma RequestedExactly(s: SignerState, req: Request)
    ensures Requested(s, req).Ok?
       <==> && (req.Eidas? ==> req.loa in {
                  "http://eidas.europa.eu/LoA/low", "http://eidas.europa.eu/LoA/substantial",
                  "http://eidas.europa.eu/LoA/high"})
            && (req.Custom? ==> req.tokenType != "")
            && (req.AccessToken? ==> req.clientId != "")
            && (VariantOf(req).Some? ==> VariantKey(req) != "" && VariantOf(req).value.valid)
            && (!BuiltIn(req) && VariantKey(req) != "" ==> FreeKey(s, VariantKey(req)))
  {
    hide DigidAcr, EherkenningAcr;
  }

  /** A key no standard claim, no other registered claim and no token type can stand under. */
  predicate FreeKey(s: SignerState, key: string) {
    && key !in STANDARD_NAMES && key != s.tokenTypeClaim
    && key !in {"groups", "entitlements", "azp", "cnf", "sid", "given_name", "family_name"}
  }

  // ----- assurance levels -----

  /** The levels of DigiD and the classes of eHerkenning by rank, and the eIDAS level of each rank. */
  const DIGID_LEVELS: seq<string> := ["basis", "midden", "substantieel", "hoog"]
  const EHERKENNING_CLASSES: seq<string> := [
    "urn:etoegang:core:assurance-class:loa2", "urn:etoegang:core:assurance-class:loa2plus",
    "urn:etoegang:core:assurance-class:loa3", "urn:etoegang:core:assurance-class:loa4"
  ]
  const EIDAS_LEVELS: seq<string> := [
    "http://eidas.europa.eu/LoA/low", "http://eidas.europa.eu/LoA/low",
    "http://eidas.europa.eu/LoA/substantial", "http://eidas.europa.eu/LoA/high"
  ]

  /** The rank of a text, the lowest for one that is no level. */
  function Rank(levels: seq<string>, level: string): (r: nat)
    requires |levels| == 4
    ensures r < 4
  {
    if level == levels[3] then 3 else if level == levels[2] then 2 else if level == levels[1] then 1 else 0
  }

  /**
   The acr of an issued payload states the eIDAS level of the rank asked for, so
   the two national schemes agree rank by rank, and IssueEIDAS takes each level.
   */
  lemma DerivedAcr(s: SignerState, req: Request, env: Env)
    requires PayloadOf(s, req, env).Ok? && s.tokenTypeClaim != "acr"
    ensures req.Digid? ==>
              Lookup(PayloadOf(s, req, env).value, "acr") == Some(Str(EIDAS_LEVELS[Rank(DIGID_LEVELS, req.level)]))
    ensures req.Eherkenning? ==>
              Lookup(PayloadOf(s, req, env).value, "acr")
              == Some(Str(EIDAS_LEVELS[Rank(EHERKENNING_CLASSES, req.class_)]))
    ensures req.Eidas? ==> Lookup(PayloadOf(s, req, env).value, "acr") == Some(Str(req.loa)) && req.loa in EIDAS_LEVELS
  {
    PayloadSpelledOut(s, req, env, "acr");
    RequestedLevel(s, req, env);
    AcrPlaces(s, req, env);
    hide PayloadOf, Requested, Claims, DigidAcr, EherkenningAcr, Asked, EIDAS_LEVELS, DIGID_LEVELS, EHERKENNING_CLASSES;
    if req.Eidas? {
      EidasLevelsListed(req.loa);
    } else if req.Digid? {
      DigidRank(req.level);
    } else if req.Eherkenning? {
      EherkenningRank(req.class_);
    }
  }

  lemma AcrPlaces(s: SignerState, req: Request, env: Env)
    requires env.random.Some?
    ensures Asked(s, req, env, "acr") == OptionalText(AcrOf(req)) && (BuiltIn(req) ==> VariantKey(req) != "acr")
  {
  }

  lemma DigidRank(level: string)
    ensures DigidAcr(level) == EIDAS_LEVELS[Rank(DIGID_LEVELS, level)] != ""
  {
  }

  lemma EherkenningRank(class_: string)
    ensures EherkenningAcr(class_) == EIDAS_LEVELS[Rank(EHERKENNING_CLASSES, class_)] != ""
  {
  }

  lemma RequestedLevel(s: SignerState, req: Request, env: Env)
    requires PayloadOf(s, req, env).Ok?
    ensures Requested(s, req).Ok?
    ensures req.Eidas? ==> req.loa in {LOA_LOW, LOA_SUBSTANTIAL, LOA_HIGH}
  {
  }

  // ----- refusal -----

  /** Why an Issue call fails: the first of these that is wrong, in this order. */
  lemma IssueRefusedExactly(crypto: Crypto, s: SignerState, req: Request, env: Env)
    ensures var r, key, variant := Issued(crypto, s, req, env), VariantKey(req), VariantOf(req);
            if req.Eidas? && req.loa !in EIDAS_LEVELS then r == Err(InvalidAssuranceLevel)
            else if req.Custom? && req.tokenType == "" then r == Err(MissingTokenType)
            else if req.AccessToken? && req.clientId == "" then r == Err(MissingClientId)
            else if variant.Some? && key == "" then r == Err(MissingClaimsKey)
            else if !BuiltIn(req) && key != "" && !FreeKey(s, key) then r == Err(ReservedClaimsKey(key))
            else if variant.Some? && !variant.value.valid then r == Err(InvalidPayload)
            else if req.common.subject == "" then r == Err(MissingSubject)
            else if req.common.audience == [] then r == Err(MissingAudience)
            else if env.random.None? then r == Err(NoRandomness)
            else if BuiltIn(req) && s.tokenTypeClaim == key then r == Err(ReservedClaimsKey(key))
            else if variant.Some? && variant.value.encoded.None? then r == Err(NotSerialisable)
            else if !CurveFits(s.key.pub, s.signMethod) then r == Err(InvalidKey)
            else r.Ok?
  {
    RequestRefused(s, req);
    hide Requested, WithTokenType, FreeKey;
    if Claims(s, req, env).Ok? {
      ClaimsOfRequest(s, req, env);
      LateCollision(s, req, env);
      var c := Claims(s, req, env).value;
      TakenKeys(c, c.variantKey);
    }
  }

  lemma RequestRefused(s: SignerState, req: Request)
    ensures var r, key, variant := Requested(s, req), VariantKey(req), VariantOf(req);
            if req.Eidas? && req.loa !in EIDAS_LEVELS then r == Err(InvalidAssuranceLevel)
            else if req.Custom? && req.tokenType == "" then r == Err(MissingTokenType)
            else if req.AccessToken? && req.clientId == "" then r == Err(MissingClientId)
            else if variant.Some? && key == "" then r == Err(MissingClaimsKey)
            else if !BuiltIn(req) && key != "" && !FreeKey(s, key) then r == Err(ReservedClaimsKey(key))
            else if variant.Some? && !variant.value.valid then r == Err(InvalidPayload)
            else r.Ok?
  {
    EidasLevelsListed(if req.Eidas? then req.loa else "");
    hide DigidAcr, EherkenningAcr, EIDAS_LEVELS;
  }

  lemma EidasLevelsListed(loa: string)
    ensures loa in EIDAS_LEVELS <==> loa in {LOA_LOW, LOA_SUBSTANTIAL, LOA_HIGH}
  {
    assert EIDAS_LEVELS[1] == LOA_LOW && EIDAS_LEVELS[2] == LOA_SUBSTANTIAL && EIDAS_LEVELS[3] == LOA_HIGH;
  }

  // ----- collisions -----

  lemma StandardAreReserved()
    ensures STANDARD_NAMES <= RESERVED_CLAIM_NAMES
    ensures "eidas" !in STANDARD_NAMES && "digid" !in STANDARD_NAMES && "eherkenning" !in STANDARD_NAMES
  {
  }

  /** The map is missing a key exactly when no standard claim and no token type stands under it. */
  lemma TakenKeys(c: TokenClaims, key: string)
    ensures key in WithTokenType(c)
       <==> Standard(c, key).Some? || (c.tokenType != "" && key == c.tokenTypeClaim)
  {
    hide StandardFields, Standard, Present, ToMap;
    StandardClaims(c, key);
  }

  /**
   The late collision check in MarshalJSON fires for a built-in variant exactly
   when the token-type claim is named like the variant's key, and never for a
   caller-chosen key, which checkNested has already ruled out.
   */
  lemma LateCollision(s: SignerState, req: Request, env: Env)
    requires Claims(s, req, env).Ok?
    ensures ClaimMap(Claims(s, req, env).value) == Err(ReservedClaimsKey(VariantKey(req)))
       <==> BuiltIn(req) && s.tokenTypeClaim == VariantKey(req)
  {
    hide StandardFields, Standard, Present, ToMap, WithTokenType, Requested;
    var c := Claims(s, req, env).value;
    ClaimsOfRequest(s, req, env);
    TakenKeys(c, c.variantKey);
    OnlyStandardNames(c, c.variantKey);
    StandardAreReserved();
  }

  // ----- nothing overwritten -----

  /** The payload of a request, read back from its text. */
  function PayloadOf(s: SignerState, req: Request, env: Env): Result<map<string, Value>, Error> {
    var c :- Claims(s, req, env);
    ClaimMap(c)
  }

  /**
   Exactly which names a payload has: the non-empty standard claims, the
   token-type claim unless it is an access token, and the variant's key when a
   payload was given.
   */
  lemma PayloadDomain(s: SignerState, req: Request, env: Env, name: string)
    requires PayloadOf(s, req, env).Ok?
    ensures name in PayloadOf(s, req, env).value
       <==> || Standard(Claims(s, req, env).value, name).Some?
            || (!req.AccessToken? && name == s.tokenTypeClaim)
            || (VariantOf(req).Some? && name == VariantKey(req))
  {
    hide Standard, WithTokenType, Requested;
    ClaimsOfRequest(s, req, env);
    ClaimMapPointwise(Claims(s, req, env).value, name);
    TakenKeys(Claims(s, req, env).value, name);
  }

  /** With a token-type claim outside the standard names, every standard claim keeps the value it was built with. */
  lemma NoClaimOverwritten(s: SignerState, req: Request, env: Env, name: string)
    requires PayloadOf(s, req, env).Ok?
    requires req.AccessToken? || s.tokenTypeClaim !in STANDARD_NAMES
    requires name in STANDARD_NAMES
    ensures Lookup(PayloadOf(s, req, env).value, name) == Standard(Claims(s, req, env).value, name)
  {
    hide Standard, Requested, WithTokenType;
    ClaimsOfRequest(s, req, env);
    StandardAreReserved();
    ClaimMapPointwise(Claims(s, req, env).value, name);
  }

  /** The overlays themselves: the token type and the variant stand under their own names. */
  lemma OverlaysPresent(s: SignerState, req: Request, env: Env)
    requires PayloadOf(s, req, env).Ok?
    ensures !req.AccessToken? ==> Lookup(PayloadOf(s, req, env).value, s.tokenTypeClaim) == Some(Str(TokenTypeOf(req)))
    ensures VariantOf(req).Some? ==>
              Lookup(PayloadOf(s, req, env).value, VariantKey(req)) == VariantOf(req).value.encoded
  {
    hide Standard, Requested, WithTokenType;
    ClaimsOfRequest(s, req, env);
    var c := Claims(s, req, env).value;
    LateCollision(s, req, env);
    ClaimMapPointwise(c, s.tokenTypeClaim);
    ClaimMapPointwise(c, VariantKey(req));
    if c.variant.Some? && c.variantKey == s.tokenTypeClaim {
      TakenKeys(c, c.variantKey);
    }
  }

  /** Dates are Go int64s. */
  predicate HeldDates(c: TokenClaims) {
    IsInt64(c.registered.exp) && IsInt64(c.registered.nbf) && IsInt64(c.registered.iat) && IsInt64(c.authTime)
  }

  /** Every number of the payload has a double. */
  predicate FinitePayload(s: SignerState, req: Request, env: Env) {
    PayloadOf(s, req, env).Ok? ==> FiniteMap(PayloadOf(s, req, env).value)
  }

  predicate FiniteVariant(req: Request) {
    VariantOf(req).Some? && VariantOf(req).value.encoded.Some? ==> FiniteValue(VariantOf(req).value.encoded.value)
  }

  /** Every number of a payload has a double exactly when those of the caller's own variant have. */
  lemma PayloadFinite(s: SignerState, req: Request, env: Env)
    requires PayloadOf(s, req, env).Ok? && HeldDates(Claims(s, req, env).value)
    ensures FinitePayload(s, req, env) <==> FiniteVariant(req)
  {
    hide Standard, WithTokenType, Requested, FiniteValue;
    var c, m := Claims(s, req, env).value, PayloadOf(s, req, env).value;
    ClaimsOfRequest(s, req, env);
    OverlaysPresent(s, req, env);
    if FiniteVariant(req) {
      forall name | name in m ensures FiniteValue(m[name]) {
        ClaimMapPointwise(c, name);
        StandardFinite(c, name);
        assert FiniteValue(Str(c.tokenType)) by { StringFinite(c.tokenType); }
      }
    }
  }

  lemma StringFinite(s: string)
    ensures FiniteValue(Str(s))
  {
  }

  lemma StandardFinite(c: TokenClaims, name: string)
    requires HeldDates(c)
    ensures Standard(c, name).Some? ==> FiniteValue(Standard(c, name).value)
  {
    hide FiniteValue, Seconds, OptionalText, OptionalList, IsInt64;
    forall s ensures OptionalText(s).Some? ==> FiniteValue(OptionalText(s).value) {
      TextFinite(s);
    }
    forall items ensures OptionalList(items).Some? ==> FiniteValue(OptionalList(items).value) {
      ListFinite(items);
    }
    forall t | IsInt64(t) ensures FiniteValue(Seconds(t)) {
      SecondsFinite(t);
    }
  }

  lemma TextFinite(s: string)
    ensures OptionalText(s).Some? ==> FiniteValue(OptionalText(s).value)
  {
  }

  lemma ListFinite(items: seq<string>)
    ensures OptionalList(items).Some? ==> FiniteValue(OptionalList(items).value)
  {
  }

  lemma SecondsFinite(t: int)
    requires IsInt64(t)
    ensures FiniteValue(Seconds(t))
  {
    hide FormatInt, Finite;
    FiniteFormatInt(t);
  }

  /** Dates a double holds: up to 2^53 seconds, beyond the year 285 million. */
  predicate SmallDates(c: TokenClaims) {
    && IsSmall(c.registered.exp) && IsSmall(c.registered.nbf) && IsSmall(c.registered.iat) && IsSmall(c.authTime)
  }

  /** Every number of the payload is a double. */
  ghost predicate DoublePayload(s: SignerState, req: Request, env: Env) {
    PayloadOf(s, req, env).Ok? ==> AllDoublesMap(ExactMap(PayloadOf(s, req, env).value))
  }

  ghost predicate DoubleVariant(req: Request) {
    VariantOf(req).Some? && VariantOf(req).value.encoded.Some? ==>
      AllDoubles(Exact(VariantOf(req).value.encoded.value))
  }

  /** Every number of a payload is a double exactly when those of the caller's own variant are. */
  lemma PayloadDoubles(s: SignerState, req: Request, env: Env)
    requires PayloadOf(s, req, env).Ok? && SmallDates(Claims(s, req, env).value)
    ensures DoublePayload(s, req, env) <==> DoubleVariant(req)
  {
    hide Standard, WithTokenType, Requested, AllDoubles, Exact;
    var c, m := Claims(s, req, env).value, PayloadOf(s, req, env).value;
    ClaimsOfRequest(s, req, env);
    OverlaysPresent(s, req, env);
    if DoubleVariant(req) {
      forall name | name in m ensures AllDoubles(Exact(m[name])) {
        ClaimMapPointwise(c, name);
        StandardDoubles(c, name);
        StringKept(c.tokenType);
      }
    } else {
      var key := VariantKey(req);
      assert key in m && m[key] == VariantOf(req).value.encoded.value;
      assert ExactMap(m)[key] == Exact(m[key]);
    }
  }

  lemma StringKept(s: string)
    ensures AllDoubles(Exact(Str(s)))
  {
  }

  lemma StandardDoubles(c: TokenClaims, name: string)
    requires SmallDates(c)
    ensures Standard(c, name).Some? ==> AllDoubles(Exact(Standard(c, name).value))
  {
    hide AllDoubles, Exact, Seconds, OptionalText, OptionalList, IsSmall;
    forall s ensures OptionalText(s).Some? ==> AllDoubles(Exact(OptionalText(s).value)) {
      TextKept(s);
    }
    forall items ensures OptionalList(items).Some? ==> AllDoubles(Exact(OptionalList(items).value)) {
      ListKept(items);
    }
    forall t | IsSmall(t) ensures AllDoubles(Exact(Seconds(t))) {
      SecondsKept(t);
    }
  }

  lemma SecondsKept(t: int)
    requires IsSmall(t)
    ensures AllDoubles(Exact(Seconds(t)))
  {
    SmallNumberKept(t);
  }

  lemma TextKept(s: string)
    ensures OptionalText(s).Some? ==> AllDoubles(Exact(OptionalText(s).value))
  {
  }

  lemma ListKept(items: seq<string>)
    ensures OptionalList(items).Some? ==> AllDoubles(Exact(OptionalList(items).value))
  {
  }

  /** What a request and its signer ask for under a standard name. */
  function Asked(s: SignerState, req: Request, env: Env, name: string): Option<Value>
    requires env.random.Some?
  {
    var c := req.common;
    if name == "iss" then OptionalText(s.issuer)
    else if name == "sub" then OptionalText(c.subject)
    else if name == "aud" then OptionalList(c.audience)
    else if name == "iat" || name == "nbf" then Some(Seconds(env.now / SECOND))
    else if name == "exp" then Some(Seconds((env.now + if c.ttl <= 0 then s.defaultTtl else c.ttl) / SECOND))
    else if name == "jti" then OptionalText(Base64Url.Encode(env.random.value))
    else if name == "amr" then OptionalList(c.amr)
    else if name == "auth_time" then
      (if c.authTime == ZERO_TIME || c.authTime / SECOND == 0 then None else Some(Seconds(c.authTime / SECOND)))
    else if name == "acr" then OptionalText(AcrOf(req))
    else if !req.AccessToken? then None
    else if name == "client_id" then OptionalText(req.clientId)
    else if name == "scope" then OptionalText(req.scope)
    else if name == "roles" then OptionalList(req.roles)
    else if name == "name" then OptionalText(req.name)
    else if name == "email" then OptionalText(req.email)
    else if name == "preferred_username" then OptionalText(req.preferredUsername)
    else None
  }

  /** The assurance level a token states: as asked for, or through the eIDAS mapping. */
  function AcrOf(req: Request): string {
    match req
    case Eidas(_, loa, _) => loa
    case Digid(_, level, _) => DigidAcr(level)
    case Eherkenning(_, class_, _) => EherkenningAcr(class_)
    case Custom(_, _, _, acr, _) => acr
    case AccessToken(_, _, _, _, _, _, _, acr, _, _) => acr
  }

  lemma StandardAsAsked(s: SignerState, req: Request, env: Env, name: string)
    requires Claims(s, req, env).Ok?
    ensures env.random.Some? && Standard(Claims(s, req, env).value, name) == Asked(s, req, env, name)
  {
    hide Seconds, Strings, DigidAcr, EherkenningAcr, NestedProblem, Requested;
    var c := Claims(s, req, env).value;
    RequestedParts(s, req);
    assert c.registered == Base(s, req.common, env).value;
    assert name !in STANDARD_NAMES ==> Standard(c, name).None? && Asked(s, req, env, name).None?;
  }

  lemma RequestedParts(s: SignerState, req: Request)
    requires Requested(s, req).Ok?
    ensures var c := Requested(s, req).value;
            && c.acr == AcrOf(req)
            && (if req.AccessToken? then
                  c.clientId == req.clientId && c.scope == req.scope && c.roles == req.roles && c.name == req.name
                  && c.email == req.email && c.preferredUsername == req.preferredUsername
                else
                  c.clientId == c.scope == c.name == c.email == c.preferredUsername == "" && c.roles == [])
  {
    hide NestedProblem, DigidAcr, EherkenningAcr;
  }

  /**
   The whole payload, for every request and every name: the variant under its
   key, the token type under its claim, and otherwise what the request and the
   signer ask for. It is also what reading the payload text gives.
   */
  lemma PayloadSpelledOut(s: SignerState, req: Request, env: Env, name: string)
    requires PayloadOf(s, req, env).Ok?
    ensures env.random.Some?
    ensures Lookup(PayloadOf(s, req, env).value, name)
         == if VariantOf(req).Some? && name == VariantKey(req) then VariantOf(req).value.encoded
            else if !req.AccessToken? && name == s.tokenTypeClaim then Some(Str(TokenTypeOf(req)))
            else Asked(s, req, env, name)
    ensures JsonParser.UnmarshalMap(PayloadText(Claims(s, req, env).value).value) == Some(PayloadOf(s, req, env).value)
  {
    hide Standard, Requested, WithTokenType, Asked, JsonParser.UnmarshalMap, SortedObject.PrintMap;
    var c := Claims(s, req, env).value;
    ClaimsOfRequest(s, req, env);
    ClaimMapPointwise(c, name);
    StandardAsAsked(s, req, env, name);
    PayloadReadsBack(c);
  }

  /** A payload keeps every standard claim of its request. */
  ghost predicate KeepsStandardClaims(s: SignerState, req: Request, env: Env) {
    PayloadOf(s, req, env).Ok? ==>
      forall name :: name in STANDARD_NAMES ==>
        Lookup(PayloadOf(s, req, env).value, name) == Standard(Claims(s, req, env).value, name)
  }

  /** A request whose token type is neither its issuer, its subject nor any token identifier. */
  function Witness(s: SignerState): Request {
    Custom(CommonRequest("y", ["y"], 60 * SECOND, ZERO_TIME, []), s.issuer + "..", "", "", None)
  }

  const WITNESS_ENV := Env(1_700_000_000 * SECOND, Some(seq(16, _ => 0)), 0)

  /**
   For which signers no request loses a standard claim: those whose token-type
   claim is not a standard name. WithTokenTypeClaim rejects the empty name only,
   so "iss" is a legal setting, under which a token's issuer is its type.
   */
  lemma OverwriteFreeExactly(s: SignerState)
    ensures (forall req, env :: KeepsStandardClaims(s, req, env)) <==> s.tokenTypeClaim !in STANDARD_NAMES
  {
    if s.tokenTypeClaim in STANDARD_NAMES {
      OverwrittenWitness(s);
      assert !KeepsStandardClaims(s, Witness(s), WITNESS_ENV);
    } else {
      forall req, env ensures KeepsStandardClaims(s, req, env) {
        if PayloadOf(s, req, env).Ok? {
          forall name | name in STANDARD_NAMES
            ensures Lookup(PayloadOf(s, req, env).value, name) == Standard(Claims(s, req, env).value, name)
          {
            NoClaimOverwritten(s, req, env, name);
          }
        }
      }
    }
  }

  lemma OverwrittenWitness(s: SignerState)
    requires s.tokenTypeClaim in STANDARD_NAMES
    ensures !KeepsStandardClaims(s, Witness(s), WITNESS_ENV)
  {
    hide WithTokenType, Seconds, Standard, Base64Url.Encode;
    var env := WITNESS_ENV;
    var c := Claims(s, Witness(s), env).value;
    var x := s.issuer + "..";
    assert c.variantKey == "" && c.tokenType == x && ClaimMap(c).Ok?;
    ClaimMapPointwise(c, s.tokenTypeClaim);
    assert Lookup(PayloadOf(s, Witness(s), env).value, s.tokenTypeClaim) == Some(Str(x));
    assert x != s.issuer && x != "y" && x[|s.issuer|] == '.';
    Compact.EncodedHasNoPeriod(env.random.value);
    NotTokenType(c, s.tokenTypeClaim, x);
  }

  lemma NotTokenType(c: TokenClaims, name: string, x: string)
    requires c.registered.iss != x && c.registered.sub != x && c.registered.jti != x && x != ""
    requires c.acr == c.clientId == c.scope == c.name == c.email == c.preferredUsername == ""
    ensures Standard(c, name) != Some(Str(x))
  {
  }

  // ----- dates -----

  /** The dates of a request, for every clock reading and every requested ttl. */
  lemma ValidityWindow(crypto: Crypto, opts: seq<Opt>, c: CommonRequest, env: Env)
    requires crypto.Sound() && Built(crypto, opts).Ok? && Base(Built(crypto, opts).value, c, env).Ok?
    ensures var s := Built(crypto, opts).value;
            var ttl, r := EffectiveTtl(s, c.ttl), Base(s, c, env).value;
            && ttl > 0 && (c.ttl > 0 ==> ttl == c.ttl)
            && r.nbf == r.iat <= r.exp
            && -SECOND < (r.exp - r.iat) * SECOND - ttl < SECOND
            && (ttl % SECOND == 0 ==> (r.exp - r.iat) * SECOND == ttl)
            && (r.exp > r.iat <==> env.now % SECOND + ttl >= SECOND)
            && (forall t :: r.nbf * SECOND <= t < r.exp * SECOND
                       <==> env.now / SECOND <= t / SECOND < (env.now + ttl) / SECOND)
  {
    hide Built, WellBuilt;
    var s := Built(crypto, opts).value;
    assert s.defaultTtl > 0 by { BuiltPositiveTtl(crypto, opts); }
    WindowArithmetic(env.now, EffectiveTtl(s, c.ttl));
    forall t ensures NumericDate(env.now) * SECOND <= t < NumericDate(env.now + EffectiveTtl(s, c.ttl)) * SECOND
      <==> env.now / SECOND <= t / SECOND < (env.now + EffectiveTtl(s, c.ttl)) / SECOND
    {
      WholeSeconds(t, NumericDate(env.now));
      WholeSeconds(t, NumericDate(env.now + EffectiveTtl(s, c.ttl)));
    }
  }

  lemma BuiltPositiveTtl(crypto: Crypto, opts: seq<Opt>)
    requires crypto.Sound() && Built(crypto, opts).Ok?
    ensures Built(crypto, opts).value.defaultTtl > 0
  {
    BuiltWell(crypto, opts);
  }

  lemma WindowArithmetic(now: int, ttl: int)
    requires ttl > 0
    ensures var iat, exp := now / SECOND, (now + ttl) / SECOND;
            && iat <= exp && -SECOND < (exp - iat) * SECOND - ttl < SECOND
            && (ttl % SECOND == 0 ==> (exp - iat) * SECOND == ttl)
            && (exp > iat <==> now % SECOND + ttl >= SECOND)
  {
  }

  lemma WholeSeconds(t: int, d: int)
    ensures d * SECOND <= t <==> d <= t / SECOND
  {
  }

  /** The zero time is midnight of 1 January of year 1 in the Gregorian calendar, 1969 years before the epoch. */
  lemma ZeroTimeIsYearOne()
    ensures var leapDays := 1969 / 4 - 1969 / 100 + 1969 / 400;
            ZERO_TIME == -((1969 * 365 + leapDays) * 86_400 * 1_000_000_000)
  {
  }

  /** auth_time is dropped for the zero time, and also for any time within the epoch's first second. */
  lemma AuthTimeOmitted(s: SignerState, req: Request, env: Env)
    requires Claims(s, req, env).Ok?
    ensures Standard(Claims(s, req, env).value, "auth_time").None?
       <==> req.common.authTime == ZERO_TIME || 0 <= req.common.authTime < SECOND
  {
    hide Requested, Seconds;
  }

  // ----- success -----

  /** Exactly when an Issue call on a built signer returns a token. */
  lemma IssuesExactly(crypto: Crypto, opts: seq<Opt>, req: Request, env: Env)
    requires crypto.Sound() && Built(crypto, opts).Ok?
    ensures var s := Built(crypto, opts).value;
            Issued(crypto, s, req, env).Ok?
            <==> && Requested(s, req).Ok?
                 && req.common.subject != "" && req.common.audience != [] && env.random.Some?
                 && !(BuiltIn(req) && s.tokenTypeClaim == VariantKey(req))
                 && (VariantOf(req).Some? ==> VariantOf(req).value.encoded.Some?)
                 && CurveFits(s.key.pub, s.algorithm)
  {
    hide Built, WellBuilt, Requested, WithTokenType, Signed;
    var s := Built(crypto, opts).value;
    if Claims(s, req, env).Ok? {
      var c := Claims(s, req, env).value;
      ClaimsOfRequest(s, req, env);
      LateCollision(s, req, env);
      SignedWhenFits(crypto, opts, PayloadText(c), env.nonce);
    }
  }

  lemma SignedWhenFits(crypto: Crypto, opts: seq<Opt>, payload: Result<string, Error>, nonce: int)
    requires crypto.Sound() && Built(crypto, opts).Ok?
    ensures Signed(crypto, Built(crypto, opts).value, payload, nonce).Ok?
       <==> payload.Ok? && CurveFits(Built(crypto, opts).value.key.pub, Built(crypto, opts).value.algorithm)
  {
    BuiltWell(crypto, opts);
  }
}
