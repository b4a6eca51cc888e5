/**
 Which algorithm a key is used with. The verifier's allowlist is the union over
 the key set, and a method only refuses keys of another family, so an algorithm
 is pinned to a key exactly when no other key of its family lists another one.
 */
module Pinning {
  import opened Common
  import opened Keys
  import opened Jwk
  import opened Json
  import opened GoValue
  import opened Double
  import opened Number
  import opened Compact
  import opened SortedObject
  import opened Payload
  import opened Verifying
  import opened VerifyingLaws
  import Base64Url

  /** No listed algorithm of a usable key's family differs from that key's own. */
  ghost predicate OneAlgorithmPerFamily(crypto: Crypto, jwks: seq<Jwk>) {
    forall k, l :: k in jwks && l in jwks ==>
      PublicKeyOf(crypto, k).Ok? && SameFamily(PublicKeyOf(crypto, k).value, l.alg) ==> k.alg == l.alg
  }

  /** The same, counting only the algorithms some holder of the key can sign with: for EC keys, those of its curve. */
  ghost predicate OneAlgorithmPerSigner(crypto: Crypto, jwks: seq<Jwk>) {
    forall k, l, key :: k in jwks && l in jwks && crypto.Signs(key, l.alg) && PublicKeyOf(crypto, k) == Ok(key.pub) ==>
      k.alg == l.alg
  }

  /** Somebody holds the private half of the JWK's key, and the key is strong. */
  ghost predicate HeldStrong(crypto: Crypto, k: Jwk) {
    exists key :: crypto.Held(key) && StrongKey(key.pub) && PublicKeyOf(crypto, k) == Ok(key.pub)
  }

  /** The token's header names a key of the set together with the algorithm that key lists. */
  ghost predicate UsesOwnAlgorithm(jwks: seq<Jwk>, token: string) {
    ParseUnverified(token).Some? &&
    exists k :: k in jwks && HeaderNames(ParseUnverified(token).value.header, k.kid, k.alg)
  }

  predicate HeaderNames(header: map<string, Any>, kid: string, alg: string) {
    StringMember(header, "kid") == Some(kid) && StringMember(header, "alg") == Some(alg)
  }

  /** Whatever this verifier accepts, at any time, uses its own key's algorithm. */
  ghost predicate AlwaysOwnAlgorithm(crypto: Crypto, jwks: seq<Jwk>, v: View) {
    forall token, t :: Verified(crypto, v, token, t).Ok? ==> UsesOwnAlgorithm(jwks, token)
  }

  // ----- pinned within a family -----

  /** With one algorithm per family in the set, an accepted token was checked under its own key's algorithm. */
  lemma PinnedWithinFamily(
    crypto: Crypto, v: View, jwks: seq<Jwk>, opts: seq<VerifierOption>, token: string, t: int)
    requires Inoffensive(jwks, |jwks|) && Describes(v, jwks, opts) && OneAlgorithmPerFamily(crypto, jwks)
    requires Verified(crypto, v, token, t).Ok?
    ensures UsesOwnAlgorithm(jwks, token)
  {
    hide ParseUnverified, PublicKeyOf, Current, Parts, Verified;
    AcceptanceSound(crypto, v, jwks, opts, token, t);
    var claims := Verified(crypto, v, token, t).value;
    var head, body, sig, header, octets, k, pub :|
      Parts(token, head, body, sig, header, claims, octets) && NamedKey(crypto, jwks, header, k, pub)
      && SignedUnderListed(crypto, jwks, header, pub, head + ['.'] + body, octets) && Current(v, claims, t);
    PartsAreParsed(token, head, body, sig, header, claims, octets);
    assert HeaderNames(header, k.kid, k.alg);
  }

  // ----- not pinned otherwise -----

  function HeaderFor(alg: string, kid: string): map<string, Value> {
    map["alg" := Str(alg), "kid" := Str(kid), "typ" := Str("JWT")]
  }

  function InputFor(alg: string, kid: string, m: map<string, Value>): string {
    SigningInput(PrintMap(HeaderFor(alg, kid)), PrintMap(m))
  }

  /** A token the holder of a private key signs under an algorithm of its choice. */
  function TokenFor(
    crypto: Crypto, key: PrivateKey, alg: string, kid: string, m: map<string, Value>, nonce: int): string
  {
    InputFor(alg, kid, m) + ['.'] + Base64Url.Encode(crypto.sign(key, alg, InputFor(alg, kid, m), nonce))
  }

  lemma TokenForParses(
    crypto: Crypto, key: PrivateKey, alg: string, kid: string, m: map<string, Value>, nonce: int)
    requires FiniteMap(m)
    ensures var sig := Base64Url.Encode(crypto.sign(key, alg, InputFor(alg, kid, m), nonce));
            ParseUnverified(TokenFor(crypto, key, alg, kid, m, nonce))
            == Some(Unverified(ReadBack(HeaderFor(alg, kid)), ReadBack(m), sig, InputFor(alg, kid, m)))
  {
    hide PrintMap, SplitToken, Segment, ReadObject, HeaderFor, FiniteMap, ReadBack, Base64Url.Encode, Base64Url.Decode;
    var header := HeaderFor(alg, kid);
    CompactRoundTrip(PrintMap(header), PrintMap(m), crypto.sign(key, alg, InputFor(alg, kid, m), nonce));
    assert FiniteMap(header) by { HeaderForMembers(alg, kid); }
    ReadPrinted(header);
    ReadPrinted(m);
  }

  lemma HeaderForMembers(alg: string, kid: string)
    ensures HeaderNames(ReadBack(HeaderFor(alg, kid)), kid, alg) && FiniteMap(HeaderFor(alg, kid))
  {
  }

  /** A token under any listed algorithm of the key's family is accepted once its signature verifies. */
  lemma VerifiedTokenAccepted(
    crypto: Crypto, v: View, jwks: seq<Jwk>, opts: seq<VerifierOption>, k: Jwk, l: Jwk, key: PrivateKey,
    m: map<string, Value>, nonce: int, t: int)
    requires FiniteMap(m) && Inoffensive(jwks, |jwks|) && Describes(v, jwks, opts)
    requires k in jwks && l in jwks && PublicKeyOf(crypto, k) == Ok(key.pub) && SameFamily(key.pub, l.alg)
    requires var input := InputFor(l.alg, k.kid, m);
             crypto.verify(key.pub, l.alg, input, crypto.sign(key, l.alg, input, nonce))
    requires ClaimsValid(ReadBack(m), v, t)
    ensures Verified(crypto, v, TokenFor(crypto, key, l.alg, k.kid, m, nonce), t) == Ok(ReadBack(m))
    ensures UsesOwnAlgorithm(jwks, TokenFor(crypto, key, l.alg, k.kid, m, nonce)) <==> k.alg == l.alg
  {
    hide PublicKeyOf, ParseUnverified, Checked, ClaimsValid, Base64Url.Encode, Base64Url.Decode;
    hide InputFor, HeaderFor, TokenFor, Inoffensive, KeyFor, ReadBack;
    TokenForParses(crypto, key, l.alg, k.kid, m, nonce);
    HeaderForMembers(l.alg, k.kid);
    InoffensiveExactly(jwks);
    var header, claims, input := ReadBack(HeaderFor(l.alg, k.kid)), ReadBack(m), InputFor(l.alg, k.kid, m);
    var octets := crypto.sign(key, l.alg, input, nonce);
    Base64Url.DecodeEncode(octets);
    assert NamedKey(crypto, jwks, header, k, key.pub);
    KeyForNamed(crypto, v, jwks, opts, header, k, key.pub);
    PassesIsChecked(crypto, v, Unverified(header, claims, Base64Url.Encode(octets), input), l.alg, octets, key.pub, t);
    OnlyKeyNamed(jwks, k, l, header);
  }

  /**
   The holder of a key in the set is accepted under every algorithm any key of
   the set lists and that its own key can sign with, for all claims that pass.
   */
  lemma OtherAlgorithmAccepted(
    crypto: Crypto, v: View, jwks: seq<Jwk>, opts: seq<VerifierOption>, k: Jwk, l: Jwk, key: PrivateKey,
    m: map<string, Value>, nonce: int, t: int)
    requires FiniteMap(m) && crypto.Sound() && Inoffensive(jwks, |jwks|) && Describes(v, jwks, opts)
    requires k in jwks && l in jwks && PublicKeyOf(crypto, k) == Ok(key.pub) && crypto.Signs(key, l.alg)
    requires ClaimsValid(ReadBack(m), v, t)
    ensures Verified(crypto, v, TokenFor(crypto, key, l.alg, k.kid, m, nonce), t) == Ok(ReadBack(m))
    ensures UsesOwnAlgorithm(jwks, TokenFor(crypto, key, l.alg, k.kid, m, nonce)) <==> k.alg == l.alg
  {
    hide PublicKeyOf, Verified, UsesOwnAlgorithm, ClaimsValid, InputFor, TokenFor, Inoffensive, Describes;
    VerifiedTokenAccepted(crypto, v, jwks, opts, k, l, key, m, nonce, t);
  }

  lemma OnlyKeyNamed(jwks: seq<Jwk>, k: Jwk, l: Jwk, header: map<string, Any>)
    requires DistinctKids(jwks) && k in jwks && HeaderNames(header, k.kid, l.alg)
    ensures (exists own :: own in jwks && HeaderNames(header, own.kid, own.alg)) <==> k.alg == l.alg
  {
    if own :| own in jwks && HeaderNames(header, own.kid, own.alg) {
      var i :| 0 <= i < |jwks| && jwks[i] == own;
      var j :| 0 <= j < |jwks| && jwks[j] == k;
      assert i == j;
    }
  }

  /** Claims that meet every expectation a verifier can have. */
  function ExpectedClaims(v: View): map<string, Value> {
    map["exp" := Seconds(1), "iss" := Str(v.expectedIssuer), "aud" := Str(v.expectedAudience)]
  }

  lemma ExpectedClaimsValid(v: View)
    ensures ClaimsValid(ReadBack(ExpectedClaims(v)), v, 0) && FiniteMap(ExpectedClaims(v))
  {
    ExpectedClaimsRead(v);
    assert DateSeconds(1.0) == 1;
    hide DateSeconds, ReadBack, ExpectedClaims;
    ExpectedClaimsFinite(v);
  }

  lemma ExpectedClaimsFinite(v: View)
    ensures FiniteMap(ExpectedClaims(v))
  {
    hide FormatInt, Finite;
    FiniteFormatInt(1);
  }

  lemma ExpectedClaimsRead(v: View)
    ensures var c := ReadBack(ExpectedClaims(v));
            && "exp" in c && c["exp"] == GoFloat(1.0) && "nbf" !in c
            && "iss" in c && c["iss"] == GoString(v.expectedIssuer)
            && "aud" in c && c["aud"] == GoString(v.expectedAudience)
  {
    hide FormatInt, Round, ReadBack, IsDouble;
    var m := ExpectedClaims(v);
    ReadBackNumber(m, "exp", 1);
    SmallIntegers(1);
    ReadBackString(m, "iss", v.expectedIssuer);
    ReadBackString(m, "aud", v.expectedAudience);
    ReadBackAt(m, "nbf");
  }

  // ----- exactly when -----

  /** For one sound crypto: one algorithm per family is enough, and one per signer is needed. */
  lemma PinnedBetween(crypto: Crypto, v: View, jwks: seq<Jwk>, opts: seq<VerifierOption>)
    requires crypto.Sound() && Inoffensive(jwks, |jwks|) && Describes(v, jwks, opts)
    ensures OneAlgorithmPerFamily(crypto, jwks) ==> AlwaysOwnAlgorithm(crypto, jwks, v)
    ensures AlwaysOwnAlgorithm(crypto, jwks, v) ==> OneAlgorithmPerSigner(crypto, jwks)
  {
    hide Verified, UsesOwnAlgorithm, PublicKeyOf, Inoffensive, Describes, TokenFor, ClaimsValid, ExpectedClaims;
    hide Crypto.Signs, Crypto.Sound;
    if OneAlgorithmPerFamily(crypto, jwks) {
      forall token, t | Verified(crypto, v, token, t).Ok? ensures UsesOwnAlgorithm(jwks, token) {
        PinnedWithinFamily(crypto, v, jwks, opts, token, t);
      }
    }
    if AlwaysOwnAlgorithm(crypto, jwks, v) {
      forall k, l, key
        | k in jwks && l in jwks && crypto.Signs(key, l.alg) && PublicKeyOf(crypto, k) == Ok(key.pub)
        ensures k.alg == l.alg
      {
        ExpectedClaimsValid(v);
        OtherAlgorithmAccepted(crypto, v, jwks, opts, k, l, key, ExpectedClaims(v), 0, 0);
      }
    }
  }

  /** For sets of held and strong RSA keys, besides keys that do not decode, the two bounds meet. */
  lemma RsaPinnedExactly(crypto: Crypto, v: View, jwks: seq<Jwk>, opts: seq<VerifierOption>)
    requires crypto.Sound() && Inoffensive(jwks, |jwks|) && Describes(v, jwks, opts)
    requires forall k :: k in jwks && PublicKeyOf(crypto, k).Ok? ==>
               PublicKeyOf(crypto, k).value.RsaKey? && HeldStrong(crypto, k)
    ensures AlwaysOwnAlgorithm(crypto, jwks, v) <==> OneAlgorithmPerFamily(crypto, jwks)
  {
    hide PublicKeyOf, Inoffensive, Describes, AlwaysOwnAlgorithm, Crypto.Held, StrongKey, Crypto.Sound;
    PinnedBetween(crypto, v, jwks, opts);
    if OneAlgorithmPerSigner(crypto, jwks) {
      forall k, l
        | k in jwks && l in jwks && PublicKeyOf(crypto, k).Ok? && SameFamily(PublicKeyOf(crypto, k).value, l.alg)
        ensures k.alg == l.alg
      {
        assert HeldStrong(crypto, k);
        var key :| crypto.Held(key) && StrongKey(key.pub) && PublicKeyOf(crypto, k) == Ok(key.pub);
        assert crypto.Signs(key, l.alg);
      }
    }
  }

  /** Two RSA JWKs with empty integers, which NewVerifier takes and no key pair belongs to. */
  const EMPTY_KEYS: seq<Jwk> := [
    Jwk("RSA", "sig", "RS256", "a", "", "", "", "", ""), Jwk("RSA", "sig", "PS256", "b", "", "", "", "", "")
  ]

  /**
   Why the keys must be held: primitives that refuse a zero modulus accept
   nothing under these two, so the algorithm is pinned, though it is not one per family.
   */
  lemma EmptyKeysPinned(crypto: Crypto, v: View, opts: seq<VerifierOption>)
    requires Describes(v, EMPTY_KEYS, opts)
    requires forall alg, msg, sig :: !crypto.verify(RsaKey(0, 0), alg, msg, sig)
    ensures Inoffensive(EMPTY_KEYS, 2)
    ensures AlwaysOwnAlgorithm(crypto, EMPTY_KEYS, v) && !OneAlgorithmPerFamily(crypto, EMPTY_KEYS)
  {
    EmptyKeysDecode(crypto);
    EmptyKeysMixed(crypto);
    hide PublicKeyOf, Verified, UsesOwnAlgorithm, OneAlgorithmPerFamily, Inoffensive, EMPTY_KEYS;
    forall token, t ensures Verified(crypto, v, token, t).Err? {
      EmptyKeysRefuse(crypto, v, token, t);
    }
  }

  lemma EmptyKeysMixed(crypto: Crypto)
    ensures Inoffensive(EMPTY_KEYS, 2) && !OneAlgorithmPerFamily(crypto, EMPTY_KEYS)
  {
    EmptyKeysDecode(crypto);
    hide PublicKeyOf;
    assert EMPTY_KEYS[0] in EMPTY_KEYS && EMPTY_KEYS[1] in EMPTY_KEYS;
  }

  lemma EmptyKeysRefuse(crypto: Crypto, v: View, token: string, t: int)
    requires forall kid :: kid in v.keys ==> PublicKeyOf(crypto, v.keys[kid]) == Ok(RsaKey(0, 0))
    requires forall alg, msg, sig :: !crypto.verify(RsaKey(0, 0), alg, msg, sig)
    ensures Verified(crypto, v, token, t).Err?
  {
    hide PublicKeyOf, ParseUnverified, Checked, ClaimsValid, RegisteredMethod, Base64Url.Decode;
    var parsed := ParseUnverified(token);
    if parsed.Some? && Checked(crypto, v, parsed.value, t).Ok? {
      var _, _, _ := CheckedPasses(crypto, v, parsed.value, t);
    }
  }

  lemma EmptyKeysDecode(crypto: Crypto)
    ensures forall k :: k in EMPTY_KEYS ==> PublicKeyOf(crypto, k) == Ok(RsaKey(0, 0))
  {
  }

  /** Primitives that may differ in which signatures they accept, and in nothing else. */
  ghost predicate SameButVerify(c: Crypto, d: Crypto) { d == c.(verify := d.verify) }

  lemma SameKeys(c: Crypto, d: Crypto, k: Jwk)
    requires SameButVerify(c, d)
    ensures PublicKeyOf(d, k) == PublicKeyOf(c, k)
  {
  }

  function AcceptAll(): (PublicKey, Algorithm, string, seq<byte>) -> bool { (_, _, _, _) => true }

  /**
   The algorithm is pinned whatever signatures verify beyond the honest ones
   exactly for the sets with one algorithm per family: one RSA and one EC
   algorithm side by side are pinned, RS256 beside PS256 are not.
   */
  lemma PinnedExactly(crypto: Crypto, v: View, jwks: seq<Jwk>, opts: seq<VerifierOption>)
    requires crypto.Sound() && Inoffensive(jwks, |jwks|) && Describes(v, jwks, opts)
    ensures (forall d :: SameButVerify(crypto, d) && d.Sound() ==> AlwaysOwnAlgorithm(d, jwks, v))
       <==> OneAlgorithmPerFamily(crypto, jwks)
  {
    hide Verified, UsesOwnAlgorithm, PublicKeyOf, Inoffensive, Describes, TokenFor, InputFor, ClaimsValid;
    hide ExpectedClaims, AlwaysOwnAlgorithm;
    if OneAlgorithmPerFamily(crypto, jwks) {
      forall d | SameButVerify(crypto, d) && d.Sound() ensures AlwaysOwnAlgorithm(d, jwks, v) {
        forall k ensures PublicKeyOf(d, k) == PublicKeyOf(crypto, k) {
          SameKeys(crypto, d, k);
        }
        PinnedBetween(d, v, jwks, opts);
      }
    }
    var d := crypto.(verify := AcceptAll());
    if AlwaysOwnAlgorithm(d, jwks, v) {
      forall k, l
        | k in jwks && l in jwks && PublicKeyOf(crypto, k).Ok? && SameFamily(PublicKeyOf(crypto, k).value, l.alg)
        ensures k.alg == l.alg
      {
        var key, m := PrivateKey(PublicKeyOf(crypto, k).value, 0), ExpectedClaims(v);
        SameKeys(crypto, d, k);
        ExpectedClaimsValid(v);
        VerifiedTokenAccepted(d, v, jwks, opts, k, l, key, m, 0, 0);
        OwnAlgorithmOf(d, jwks, v, TokenFor(d, key, l.alg, k.kid, m, 0), 0);
      }
    }
  }

  lemma OwnAlgorithmOf(crypto: Crypto, jwks: seq<Jwk>, v: View, token: string, t: int)
    requires AlwaysOwnAlgorithm(crypto, jwks, v) && Verified(crypto, v, token, t).Ok?
    ensures UsesOwnAlgorithm(jwks, token)
  {
  }
}
