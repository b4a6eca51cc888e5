/** What NewSigner accepts, what every built signer satisfies, and when it can sign. */
module SigningLaws {
  import opened Common
  import opened BigEndian
  import opened Keys
  import opened Options
  import opened Jwk
  import opened JwkLaws
  import opened Thumbprints
  import opened Json
  import opened SortedObject
  import opened Compact
  import opened Signing
  import JsonParser

  // ----- construction -----

  lemma WeaknessIsShortness(pub: PublicKey)
    ensures Weakness(pub).None? <==> StrongKey(pub)
  {
    if pub.RsaKey? {
      BitLenBound(pub.n, 2047);
    }
  }

  /** An accepted list has an issuer exactly when one of its options sets it. */
  lemma {:induction false} IssuerSet(opts: seq<Opt>)
    requires Accepted(opts)
    ensures Configured(opts).Ok?
    ensures Configured(opts).value.issuer != "" <==> exists i :: 0 <= i < |opts| && opts[i].WithIssuer?
  {
    if opts != [] {
      var n := |opts| - 1;
      IssuerSet(opts[..n]);
      assert (exists i :: 0 <= i < |opts| && opts[i].WithIssuer?)
        <==> opts[n].WithIssuer? || exists i :: 0 <= i < n && opts[..n][i].WithIssuer?;
    }
  }

  /** Settings no accepted option list can leave empty. */
  lemma {:induction false} SettingsFilled(opts: seq<Opt>)
    requires Configured(opts).Ok?
    ensures var cfg := Configured(opts).value;
            && Supported(cfg.algorithm) && cfg.defaultTtl > 0 && cfg.tokenTypeClaim != "" && cfg.headerTyp != ""
  {
    if opts != [] {
      SettingsFilled(opts[..|opts| - 1]);
    }
  }

  /** NewSigner succeeds on exactly these inputs. */
  lemma BuiltExactly(crypto: Crypto, opts: seq<Opt>)
    requires crypto.Sound()
    ensures Built(crypto, opts).Ok?
       <==> && Accepted(opts)
            && (exists i :: 0 <= i < |opts| && opts[i].WithIssuer?)
            && var cfg := (ConfiguredWhenAccepted(opts); Configured(opts).value);
               && cfg.keyPem != [] && crypto.parsePem(cfg.keyPem).Ok?
               && var pub := crypto.parsePem(cfg.keyPem).value.pub;
                  SameFamily(pub, cfg.algorithm) && StrongKey(pub)
  {
    hide BitLen, Pow2;
    ConfiguredWhenAccepted(opts);
    if Accepted(opts) {
      IssuerSet(opts);
      SettingsFilled(opts);
      var cfg := Configured(opts).value;
      if crypto.parsePem(cfg.keyPem).Ok? {
        var pub := crypto.parsePem(cfg.keyPem).value.pub;
        WeaknessIsShortness(pub);
        PublishedExactly(crypto, pub, cfg.algorithm, cfg.keyId);
        assert crypto.ParsedKey(pub);
      }
    }
  }

  /** Why no signer is built: the first refused option, or else the first of these that is wrong, in this order. */
  lemma RefusedSigner(crypto: Crypto, opts: seq<Opt>)
    requires crypto.Sound() && Accepted(opts)
    ensures Configured(opts).Ok?
    ensures var cfg, r := Configured(opts).value, Built(crypto, opts);
            if !exists i :: 0 <= i < |opts| && opts[i].WithIssuer? then r == Err(IssuerRequired)
            else if cfg.keyPem == [] then r == Err(NoSigningKey)
            else
              var key := crypto.parsePem(cfg.keyPem);
              if key.Err? then r == Err(key.error)
              else if !SameFamily(key.value.pub, cfg.algorithm) then r == Err(KeyAlgorithmMismatch)
              else if !StrongKey(key.value.pub) then r == Err(WeakSigningKey)
              else r.Ok?
  {
    ConfiguredWhenAccepted(opts);
    IssuerSet(opts);
    SettingsFilled(opts);
    BuiltExactly(crypto, opts);
    var cfg := Configured(opts).value;
    if crypto.parsePem(cfg.keyPem).Ok? {
      WeaknessIsShortness(crypto.parsePem(cfg.keyPem).value.pub);
    }
    hide BitLen, Pow2, PublicJwk, Configured;
  }

  /** What holds of every signer NewSigner returns. */
  ghost predicate WellBuilt(crypto: Crypto, s: SignerState) {
    && s.issuer != "" && s.keyId != "" && s.headerTyp != "" && s.tokenTypeClaim != "" && s.defaultTtl > 0
    && Supported(s.algorithm) && s.signMethod == s.algorithm
    && SameFamily(s.key.pub, s.algorithm) && StrongKey(s.key.pub) && crypto.Held(s.key)
    && s.jwk.kid == s.keyId && s.jwk.alg == s.algorithm
    && PublicKeyOf(crypto, s.jwk) == Ok(s.key.pub)
  }

  /** Every built signer is filled in, strong, and publishes the very key it signs with. */
  lemma BuiltWell(crypto: Crypto, opts: seq<Opt>)
    requires crypto.Sound() && Built(crypto, opts).Ok?
    ensures WellBuilt(crypto, Built(crypto, opts).value)
  {
    hide Configured, Assembled, PublicJwk, PublicKeyOf, StrongKey, Crypto.Held, Crypto.Sound;
    SettingsFilled(opts);
    var cfg := Configured(opts).value;
    AssembledFrom(crypto, cfg);
    WellPublished(crypto, Assembled(crypto, cfg).value.key.pub, cfg.algorithm, cfg.keyId);
  }

  /** What the assembled fields are taken from. */
  lemma AssembledFrom(crypto: Crypto, cfg: Settings)
    requires crypto.Sound() && Assembled(crypto, cfg).Ok?
    ensures var s := Assembled(crypto, cfg).value;
            && cfg.issuer != "" && s.issuer == cfg.issuer && s.signMethod == s.algorithm == cfg.algorithm
            && s.defaultTtl == cfg.defaultTtl && s.tokenTypeClaim == cfg.tokenTypeClaim && s.headerTyp == cfg.headerTyp
            && SameFamily(s.key.pub, s.algorithm) && StrongKey(s.key.pub) && crypto.Held(s.key)
            && crypto.ParsedKey(s.key.pub)
            && PublicJwk(crypto, s.key.pub, cfg.algorithm, cfg.keyId) == Ok(s.jwk) && s.keyId == s.jwk.kid
  {
    hide PublicJwk, BitLen, Pow2;
    var s := Assembled(crypto, cfg).value;
    WeaknessIsShortness(s.key.pub);
    hide StrongKey, Weakness;
    assert crypto.parsePem(cfg.keyPem) == Ok(s.key);
  }

  lemma WellPublished(crypto: Crypto, pub: PublicKey, alg: Algorithm, kid: string)
    requires crypto.Sound() && crypto.ParsedKey(pub) && PublicJwk(crypto, pub, alg, kid).Ok?
    ensures var jwk := PublicJwk(crypto, pub, alg, kid).value;
            jwk.kid != "" && jwk.alg == alg && PublicKeyOf(crypto, jwk) == Ok(pub)
  {
    hide PublicJwk, PublicKeyOf;
    KidNonEmpty(crypto, pub, alg, kid);
    PublishedAlg(crypto, pub, alg, kid);
    PublishedKeyReconstructs(crypto, pub, alg, kid);
  }

  // ----- signing -----

  /** The header of a token, read back from its text. */
  function TokenHeader(token: string): Option<map<string, Value>> {
    var parts :- SplitToken(token);
    var text :- SegmentText(parts.0);
    JsonParser.UnmarshalMap(text)
  }

  /** Every token a signer makes names its own alg, typ and kid, and nothing else, in the header. */
  lemma SignedHeader(crypto: Crypto, s: SignerState, payload: string, nonce: int)
    requires Signed(crypto, s, Ok(payload), nonce).Ok?
    ensures TokenHeader(Signed(crypto, s, Ok(payload), nonce).value)
         == Some(map["alg" := Str(s.signMethod), "kid" := Str(s.keyId), "typ" := Str(s.headerTyp)])
  {
    hide SplitToken, SegmentText, PrintMap, JsonParser.UnmarshalMap;
    var input := SigningInput(PrintMap(Header(s)), payload);
    CompactRoundTrip(PrintMap(Header(s)), payload, crypto.sign(s.key, s.signMethod, input, nonce));
    UnmarshalPrintMap(Header(s));
    assert Header(s) == map["alg" := Str(s.signMethod), "kid" := Str(s.keyId), "typ" := Str(s.headerTyp)];
  }

  /** With only an issuer and a key, tokens are RS256 tokens of type JWT, for five minutes by default. */
  lemma DefaultTokens(crypto: Crypto, iss: string, pem: seq<byte>, payload: string, nonce: int)
    requires iss != "" && pem != [] && Built(crypto, [WithIssuer(iss), WithSigningKeyPem(pem)]).Ok?
    ensures var s := Built(crypto, [WithIssuer(iss), WithSigningKeyPem(pem)]).value;
            && s.issuer == iss && s.defaultTtl == 300_000_000_000 && s.tokenTypeClaim == "token_type"
            && s.jwk.alg == "RS256" && crypto.parsePem(pem) == Ok(s.key)
            && Signed(crypto, s, Ok(payload), nonce).Ok?
            && TokenHeader(Signed(crypto, s, Ok(payload), nonce).value)
               == Some(map["alg" := Str("RS256"), "kid" := Str(s.keyId), "typ" := Str("JWT")])
  {
    DefaultsDocumented(iss, pem);
    var s := Built(crypto, [WithIssuer(iss), WithSigningKeyPem(pem)]).value;
    hide Configured, TokenHeader, BitLen, PublicJwk;
    assert CurveFits(s.key.pub, "RS256");
    PublishedAlg(crypto, s.key.pub, "RS256", "");
    SignedHeader(crypto, s, payload, nonce);
  }

  lemma PublishedAlg(crypto: Crypto, pub: PublicKey, alg: Algorithm, kid: string)
    ensures PublicJwk(crypto, pub, alg, kid).Ok? ==> PublicJwk(crypto, pub, alg, kid).value.alg == alg
  {
  }

  /** Signing a payload works exactly when the key fits the method: always for RSA, one curve per ECDSA algorithm. */
  lemma SignsExactly(crypto: Crypto, opts: seq<Opt>, payload: string, nonce: int)
    requires crypto.Sound() && Built(crypto, opts).Ok?
    ensures var s := Built(crypto, opts).value;
            Signed(crypto, s, Ok(payload), nonce).Ok?
            <==> || s.key.pub.RsaKey?
                 || (s.algorithm, s.key.pub.curve) in {("ES256", P256), ("ES384", P384), ("ES512", P521)}
  {
    BuiltWell(crypto, opts);
  }

  /** A crypto whose every PEM holds one key, on the given curve. */
  function CurveCrypto(curve: Curve): Crypto {
    Crypto(
      _ => Zeros(32),
      (_, _, _) => true,
      _ => Ok(PrivateKey(EcKey(curve, 1, 1), 0)),
      (_, _, _, _) => [],
      (_, _, _, _) => true)
  }

  lemma CurveCryptoSound(curve: Curve)
    ensures CurveCrypto(curve).Sound()
  {
    hide Pow256;
    OneFits(CoordinateSize(curve));
    assert CurveCrypto(curve).ValidPoint(curve, 1, 1);
  }

  lemma OneFits(k: nat)
    requires k > 0
    ensures 1 < Pow256(k)
  {
  }

  const ES256_OPTIONS: seq<Opt> := [WithIssuer("issuer"), WithSigningKeyPem([0]), WithAlgorithm("ES256")]

  lemma Es256Settings()
    ensures Configured(ES256_OPTIONS) == Ok(DEFAULT_SETTINGS.(issuer := "issuer", keyPem := [0], algorithm := "ES256"))
  {
    var a, b := ES256_OPTIONS[..1], ES256_OPTIONS[..2];
    assert a[..0] == [] && b[..1] == a;
    assert Configured(a) == Ok(DEFAULT_SETTINGS.(issuer := "issuer"));
    assert Configured(b) == Ok(DEFAULT_SETTINGS.(issuer := "issuer", keyPem := [0]));
  }

  /** ES256 options build a signer from a key on any approved curve. */
  lemma Es256Built(curve: Curve)
    requires curve != P224
    ensures CurveCrypto(curve).Sound() && Built(CurveCrypto(curve), ES256_OPTIONS).Ok?
    ensures var s := Built(CurveCrypto(curve), ES256_OPTIONS).value;
            s.key.pub == EcKey(curve, 1, 1) && s.signMethod == s.algorithm == "ES256" && s.issuer == "issuer"
            && s.defaultTtl == 5 * 60 * SECOND && s.tokenTypeClaim == "token_type"
  {
    hide Configured, PublicJwk, Pow256, BitLen;
    CurveCryptoSound(curve);
    Es256Settings();
    assert ES256_OPTIONS[0].WithIssuer?;
    BuiltExactly(CurveCrypto(curve), ES256_OPTIONS);
  }

  /**
   The family check lets a signer be built that can never sign: ES256 with a
   P-384 key passes NewSigner and fails every Sign.
   */
  lemma MismatchedCurveNeverSigns(payload: string, nonce: int)
    ensures CurveCrypto(P384).Sound() && Built(CurveCrypto(P384), ES256_OPTIONS).Ok?
    ensures var s := Built(CurveCrypto(P384), ES256_OPTIONS).value;
            Signed(CurveCrypto(P384), s, Ok(payload), nonce) == Err(InvalidKey)
  {
    hide Built, PrintMap;
    Es256Built(P384);
  }
}
