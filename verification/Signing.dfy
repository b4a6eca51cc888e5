/** The signer: how NewSigner builds it, what it signs and publishes, and that nothing changes it afterwards. */
module Signing {
  import opened Common
  import opened Keys
  import opened Options
  import opened Jwk
  import opened Json
  import opened SortedObject
  import opened Compact
  import Base64Url

  const MIN_RSA_BITS := 2048

  /** signingMethod: the JWS method registered for an algorithm, named by its alg value. */
  function SigningMethod(alg: Algorithm): Result<Algorithm, Error> {
    if alg in {"RS256", "RS384", "RS512", "PS256", "PS384", "PS512", "ES256", "ES384", "ES512"} then Ok(alg)
    else Err(UnsupportedAlgorithm(alg))
  }

  /** checkKeyMatchesAlgorithm: it compares the key family only. */
  function KeyMismatch(pub: PublicKey, alg: Algorithm): Option<Error> {
    match pub
    case RsaKey(_, _) => if !IsRsa(alg) then Some(KeyAlgorithmMismatch) else None
    case EcKey(_, _, _) => if !IsEc(alg) then Some(KeyAlgorithmMismatch) else None
  }

  /** validateKeyStrength. */
  function Weakness(pub: PublicKey): Option<Error> {
    match pub
    case RsaKey(n, _) => if BitLen(n) < MIN_RSA_BITS then Some(WeakSigningKey) else None
    case EcKey(curve, _, _) => if curve == P224 then Some(WeakSigningKey) else None
  }

  /** The fields of a signer. */
  datatype SignerState = SignerState(
    key: PrivateKey, signMethod: Algorithm, algorithm: Algorithm, keyId: string, issuer: string,
    defaultTtl: int, now: Clock, jwk: Jwk, tokenTypeClaim: string, headerTyp: string)

  /** What NewSigner does after the options have run. */
  function Assembled(crypto: Crypto, cfg: Settings): Result<SignerState, Error> {
    if cfg.issuer == "" then Err(IssuerRequired)
    else if cfg.keyPem == [] then Err(NoSigningKey)
    else
      var key :- crypto.parsePem(cfg.keyPem);
      var signMethod :- SigningMethod(cfg.algorithm);
      if KeyMismatch(key.pub, cfg.algorithm).Some? then Err(KeyMismatch(key.pub, cfg.algorithm).value)
      else if Weakness(key.pub).Some? then Err(Weakness(key.pub).value)
      else
        var jwk :- PublicJwk(crypto, key.pub, cfg.algorithm, cfg.keyId);
        Ok(SignerState(key, signMethod, cfg.algorithm, jwk.kid, cfg.issuer, cfg.defaultTtl, cfg.now, jwk,
                       cfg.tokenTypeClaim, cfg.headerTyp))
  }

  function Built(crypto: Crypto, opts: seq<Opt>): Result<SignerState, Error> {
    var cfg :- Configured(opts);
    Assembled(crypto, cfg)
  }

  /** The protected header of every token of a signer. */
  function Header(s: SignerState): map<string, Value> {
    map["alg" := Str(s.signMethod), "typ" := Str(s.headerTyp), "kid" := Str(s.keyId)]
  }

  /**
   The compact token for a claims payload, which is an error when marshalling
   the claims failed. The ECDSA methods refuse a key of another curve.
   */
  function Signed(crypto: Crypto, s: SignerState, claims: Result<string, Error>, nonce: int): Result<string, Error> {
    var payload :- claims;
    var input := SigningInput(PrintMap(Header(s)), payload);
    if !CurveFits(s.key.pub, s.signMethod) then Err(InvalidKey)
    else Ok(input + ['.'] + Base64Url.Encode(crypto.sign(s.key, s.signMethod, input, nonce)))
  }

  class Signer {
    var key: PrivateKey
    var signMethod: Algorithm
    var algorithm: Algorithm
    var keyId: string
    var issuer: string
    var defaultTtl: int
    var now: Clock
    var jwk: Jwk
    var tokenTypeClaim: string
    var headerTyp: string

    constructor (s: SignerState)
      ensures State() == s
    {
      key, signMethod, algorithm, keyId, issuer := s.key, s.signMethod, s.algorithm, s.keyId, s.issuer;
      defaultTtl, now, jwk := s.defaultTtl, s.now, s.jwk;
      tokenTypeClaim, headerTyp := s.tokenTypeClaim, s.headerTyp;
    }

    function State(): SignerState
      reads this
    {
      SignerState(key, signMethod, algorithm, keyId, issuer, defaultTtl, now, jwk, tokenTypeClaim, headerTyp)
    }

    /** Sign: start from the library's header for the method, then set typ and kid. */
    method Sign(crypto: Crypto, claims: Result<string, Error>, nonce: int) returns (r: Result<string, Error>)
      ensures r == Signed(crypto, State(), claims, nonce)
    {
      var header := map["typ" := Str("JWT"), "alg" := Str(signMethod)];
      header := header["typ" := Str(headerTyp)];
      header := header["kid" := Str(keyId)];
      assert header == Header(State());
      if claims.Err? {
        return Err(claims.error);
      }
      var input := SigningInput(PrintMap(header), claims.value);
      if !CurveFits(key.pub, signMethod) {
        return Err(InvalidKey);
      }
      var signature := crypto.sign(key, signMethod, input, nonce);
      return Ok(input + ['.'] + Base64Url.Encode(signature));
    }

    /** JWKS: a slice of its own for every caller. */
    method Jwks() returns (keys: array<Jwk>)
      ensures fresh(keys) && keys[..] == [jwk]
    {
      keys := new Jwk[] [jwk];
    }
  }

  method NewSigner(crypto: Crypto, opts: seq<Opt>) returns (r: Result<Signer, Error>)
    ensures Built(crypto, opts).Err? ==> r == Err(Built(crypto, opts).error)
    ensures Built(crypto, opts).Ok? ==> r.Ok? && fresh(r.value) && r.value.State() == Built(crypto, opts).value
  {
    hide Weakness, PublicJwk, SigningMethod;
    var configured := Configure(opts);
    if configured.Err? {
      return Err(configured.error);
    }
    var cfg := configured.value;
    if cfg.issuer == "" {
      return Err(IssuerRequired);
    }
    if |cfg.keyPem| == 0 {
      return Err(NoSigningKey);
    }
    var key := crypto.parsePem(cfg.keyPem);
    if key.Err? {
      return Err(key.error);
    }
    var signMethod := SigningMethod(cfg.algorithm);
    if signMethod.Err? {
      return Err(signMethod.error);
    }
    var mismatch := KeyMismatch(key.value.pub, cfg.algorithm);
    if mismatch.Some? {
      return Err(mismatch.value);
    }
    var weakness := Weakness(key.value.pub);
    if weakness.Some? {
      return Err(weakness.value);
    }
    var jwk := PublicJwk(crypto, key.value.pub, cfg.algorithm, cfg.keyId);
    if jwk.Err? {
      return Err(jwk.error);
    }
    var signer := new Signer(SignerState(
      key.value, signMethod.value, cfg.algorithm, jwk.value.kid, cfg.issuer, cfg.defaultTtl, cfg.now, jwk.value,
      cfg.tokenTypeClaim, cfg.headerTyp));
    return Ok(signer);
  }

  // ----- runs -----

  /** What a caller may do with a signer: call it, or write anywhere into a key slice it handed out. */
  datatype Call =
    | CallSign(claims: Result<string, Error>, nonce: int)
    | CallJwks
    | CallAccessors
    | WriteKeys(slice: nat, at: nat, jwk: Jwk)

  datatype Seen =
    | SawToken(token: Result<string, Error>)
    | SawKeys(keys: seq<Jwk>)
    | SawState(keyId: string, algorithm: Algorithm, issuer: string, defaultTtl: int, tokenTypeClaim: string,
               headerTyp: string)
    | SawNothing

  /** What each call shows, as a function of the state the signer was built with. */
  function Shown(crypto: Crypto, s: SignerState, c: Call): Seen {
    match c
    case CallSign(claims, nonce) => SawToken(Signed(crypto, s, claims, nonce))
    case CallJwks => SawKeys([s.jwk])
    case CallAccessors => SawState(s.keyId, s.algorithm, s.issuer, s.defaultTtl, s.tokenTypeClaim, s.headerTyp)
    case WriteKeys(_, _, _) => SawNothing
  }

  /**
   Any sequence of calls, interleaved with writes into any key slice, whether
   handed out during the run or before it: every answer is the one the signer
   would have given at the start.
   */
  method Run(crypto: Crypto, signer: Signer, earlier: seq<array<Jwk>>, calls: seq<Call>) returns (seen: seq<Seen>)
    modifies set slice | slice in earlier
    ensures signer.State() == old(signer.State())
    ensures |seen| == |calls|
    ensures forall i :: 0 <= i < |calls| ==> seen[i] == Shown(crypto, old(signer.State()), calls[i])
  {
    hide Signed;
    var handed := earlier;
    seen := [];
    for i := 0 to |calls|
      invariant forall slice :: slice in handed ==> slice in earlier || fresh(slice)
      invariant signer.State() == old(signer.State())
      invariant |seen| == i
      invariant forall k :: 0 <= k < i ==> seen[k] == Shown(crypto, old(signer.State()), calls[k])
    {
      match calls[i] {
        case CallSign(claims, nonce) =>
          var token := signer.Sign(crypto, claims, nonce);
          seen := seen + [SawToken(token)];
        case CallJwks =>
          var keys := signer.Jwks();
          handed := handed + [keys];
          seen := seen + [SawKeys(keys[..])];
        case CallAccessors =>
          seen := seen + [SawState(signer.keyId, signer.algorithm, signer.issuer, signer.defaultTtl,
                                   signer.tokenTypeClaim, signer.headerTyp)];
        case WriteKeys(slice, at, jwk) =>
          if slice < |handed| && at < handed[slice].Length {
            var keys := handed[slice];
            assert keys in handed;
            keys[at] := jwk;
          }
          seen := seen + [SawNothing];
      }
    }
  }
}
