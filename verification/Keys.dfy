/**
 Keys, algorithms and the ideal primitives: signatures, the hash, curve
 membership and private-key parsing are the functions of a Crypto value, about
 which only the facts of Sound are ever assumed.
 */
module Keys {
  import opened Common
  import opened BigEndian

  // ----- algorithms -----

  type Algorithm = string

  const RS256: Algorithm := "RS256"
  const ES256: Algorithm := "ES256"

  predicate IsRsa(alg: Algorithm) { alg in {"RS256", "RS384", "RS512", "PS256", "PS384", "PS512"} }

  predicate IsEc(alg: Algorithm) { alg in {"ES256", "ES384", "ES512"} }

  predicate Supported(alg: Algorithm) { IsRsa(alg) || IsEc(alg) }

  // ----- keys -----

  /** The NIST curves x509 can parse; P-224 is not approved for signing here. */
  datatype Curve = P224 | P256 | P384 | P521

  datatype PublicKey =
    | RsaKey(n: nat, e: int)
    | EcKey(curve: Curve, x: nat, y: nat)

  datatype PrivateKey = PrivateKey(pub: PublicKey, secret: int)

  function CoordinateSize(c: Curve): nat {
    match c
    case P224 => 28
    case P256 => 32
    case P384 => 48
    case P521 => 66
  }

  const MIN_INT64 := -0x8000_0000_0000_0000
  const TWO_63 := 0x8000_0000_0000_0000
  const TWO_64 := 0x1_0000_0000_0000_0000

  function BitLen(n: nat): nat { if n == 0 then 0 else 1 + BitLen(n / 2) }

  lemma {:induction false} BitLenBound(n: nat, k: nat)
    ensures BitLen(n) <= k <==> n < Pow2(k)
  {
    if k != 0 && n != 0 {
      BitLenBound(n / 2, k - 1);
    }
  }

  // ----- errors -----

  datatype Error =
    | NoSigningKey | UnsupportedAlgorithm(alg: string) | InvalidKey | KeyAlgorithmMismatch
    | WeakSigningKey | IssuerEmpty | IssuerRequired | KeyFileUnreadable | TtlNotPositive
    | TokenTypeClaimEmpty | HeaderTypEmpty | ClockNil
    | JwkWithoutKid | JwkWithoutAlg(kid: string) | DuplicateKeyId(kid: string)
    | MissingTokenType | MissingClaimsKey | ReservedClaimsKey(key: string) | MissingClientId
    | MissingSubject | MissingAudience | InvalidAssuranceLevel | InvalidPayload
    | NotSerialisable | NoRandomness

  // ----- primitives -----

  datatype Crypto = Crypto(
    sha256: seq<byte> -> seq<byte>,
    onCurve: (Curve, nat, nat) -> bool,
    parsePem: seq<byte> -> Result<PrivateKey, Error>,
    sign: (PrivateKey, Algorithm, string, int) -> seq<byte>,
    verify: (PublicKey, Algorithm, string, seq<byte>) -> bool)
  {
    /** A point the curve's fixed-width encoding can hold, and that lies on the curve. */
    predicate ValidPoint(curve: Curve, x: nat, y: nat) {
      && x < Pow256(CoordinateSize(curve)) && y < Pow256(CoordinateSize(curve))
      && onCurve(curve, x, y)
    }

    /** What key parsing guarantees of a key it returns. */
    predicate ParsedKey(pub: PublicKey) {
      match pub
      case RsaKey(n, e) => n > 0 && 0 < e < TWO_63
      case EcKey(curve, x, y) => ValidPoint(curve, x, y)
    }

    /** A private key that some PEM holds. */
    ghost predicate Held(k: PrivateKey) { exists pem :: parsePem(pem) == Ok(k) }

    /** The keys and algorithms a signature can be made with: what NewSigner admits, on the algorithm's curve. */
    ghost predicate Signs(k: PrivateKey, alg: Algorithm) { Held(k) && StrongKey(k.pub) && CurveFits(k.pub, alg) }

    /**
     The only assumptions made about the primitives: digests have 32 octets,
     parsed keys are well formed, and verification accepts what a held and strong
     key signed under an algorithm that fits it.
     */
    ghost predicate Sound() {
      && (forall b :: |sha256(b)| == 32)
      && (forall pem :: parsePem(pem).Ok? ==> ParsedKey(parsePem(pem).value.pub))
      && (forall k: PrivateKey, alg: Algorithm, msg: string, nonce: int ::
            Signs(k, alg) ==> verify(k.pub, alg, msg, sign(k, alg, msg, nonce)))
    }
  }

  /** Section 3.4 of RFC 7518: each ECDSA algorithm has one curve. Any RSA key fits any RSA algorithm. */
  predicate CurveFits(pub: PublicKey, alg: Algorithm) {
    match pub
    case RsaKey(_, _) => IsRsa(alg)
    case EcKey(curve, _, _) =>
      (alg == "ES256" && curve == P256) || (alg == "ES384" && curve == P384) || (alg == "ES512" && curve == P521)
  }

  /** At least 2048 bits, or an approved curve. */
  predicate StrongKey(pub: PublicKey) {
    match pub
    case RsaKey(n, _) => n >= Pow2(2047)
    case EcKey(curve, _, _) => curve != P224
  }

  predicate SameFamily(pub: PublicKey, alg: Algorithm) {
    if pub.RsaKey? then IsRsa(alg) else IsEc(alg)
  }
}
