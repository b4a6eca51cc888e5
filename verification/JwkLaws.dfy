/** What publication and reconstruction promise together. */
module JwkLaws {
  import opened Common
  import opened BigEndian
  import opened Keys
  import opened Jwk
  import opened Number
  import Base64Url

  // ----- the two directions -----

  /** An RSA exponent is a Go int. */
  predicate WellTyped(pub: PublicKey) { pub.RsaKey? ==> IsInt64(pub.e) }

  lemma PublishedExactly(crypto: Crypto, pub: PublicKey, alg: Algorithm, kid: string)
    ensures PublicJwk(crypto, pub, alg, kid).Ok?
       <==> pub.RsaKey? || (pub.curve != P224 && crypto.ValidPoint(pub.curve, pub.x, pub.y))
  {
  }

  /** A published JWK is a signing key with its family's members and no others (sections 6.2 and 6.3 of RFC 7518). */
  lemma PublishedShape(crypto: Crypto, pub: PublicKey, alg: Algorithm, kid: string)
    requires PublicJwk(crypto, pub, alg, kid).Ok?
    ensures var k := PublicJwk(crypto, pub, alg, kid).value;
            && k.use == "sig" && k.alg == alg
            && match pub
               case RsaKey(_, _) => k.kty == "RSA" && k.crv == k.x == k.y == ""
               case EcKey(curve, _, _) =>
                 && k.kty == "EC" && k.n == k.e == "" && CurveFromName(k.crv) == Ok(curve)
                 && |k.x| == |k.y| == (4 * CoordinateSize(curve) + 2) / 3
  {
    hide Base64Url.Encode, ToBytes, FixedBytes, Thumbprint, RsaCanonical, EcCanonical, Pow256;
    if pub.EcKey? {
      var size := CoordinateSize(pub.curve);
      var raw := EcBytes(crypto, pub.curve, pub.x, pub.y).value;
      Base64Url.EncodeInAlphabet(raw[1..1 + size]);
      Base64Url.EncodeInAlphabet(raw[1 + size..1 + 2 * size]);
    }
  }

  lemma Int64OfAbs(e: int)
    requires IsInt64(e)
    ensures ToInt64(Abs(e)) == if e == MIN_INT64 then e else Abs(e)
  {
  }

  /**
   Every published key is rebuilt exactly: all RSA moduli, all EC points, and
   all exponents except the negative ones, whose sign big.Int.Bytes drops (the
   least int survives, because its magnitude wraps back to it).
   */
  lemma PublishedKeyReconstructs(crypto: Crypto, pub: PublicKey, alg: Algorithm, kid: string)
    requires WellTyped(pub) && PublicJwk(crypto, pub, alg, kid).Ok?
    ensures PublicKeyOf(crypto, PublicJwk(crypto, pub, alg, kid).value).Ok?
    ensures PublicKeyOf(crypto, PublicJwk(crypto, pub, alg, kid).value) == Ok(pub)
       <==> (pub.RsaKey? ==> pub.e >= 0 || pub.e == MIN_INT64)
  {
    match pub {
      case RsaKey(n, e) => RsaReconstructs(crypto, n, e, alg, kid);
      case EcKey(curve, x, y) => EcReconstructs(crypto, curve, x, y, alg, kid);
    }
  }

  lemma RsaReconstructs(crypto: Crypto, n: nat, e: int, alg: Algorithm, kid: string)
    requires IsInt64(e)
    ensures PublicKeyOf(crypto, PublicJwk(crypto, RsaKey(n, e), alg, kid).value)
         == Ok(RsaKey(n, if e == MIN_INT64 then e else Abs(e)))
  {
    hide Base64Url.Encode, Base64Url.Decode, FromBytes, ToBytes, Thumbprint, RsaCanonical, ToInt64;
    Base64Url.DecodeEncode(ToBytes(n));
    Base64Url.DecodeEncode(ToBytes(Abs(e)));
    FromToBytes(n);
    FromToBytes(Abs(e));
    Int64OfAbs(e);
  }

  lemma EcReconstructs(crypto: Crypto, curve: Curve, x: nat, y: nat, alg: Algorithm, kid: string)
    requires PublicJwk(crypto, EcKey(curve, x, y), alg, kid).Ok?
    ensures PublicKeyOf(crypto, PublicJwk(crypto, EcKey(curve, x, y), alg, kid).value) == Ok(EcKey(curve, x, y))
  {
    hide Base64Url.Encode, Base64Url.Decode, FromBytes, FixedBytes, Thumbprint, EcCanonical, Pow256;
    var size := CoordinateSize(curve);
    var xs, ys := FixedBytes(x, size), FixedBytes(y, size);
    var raw := [4] + xs + ys;
    assert raw[1..1 + size] == xs && raw[1 + size..1 + 2 * size] == ys && raw[1 + size..] == ys;
    Base64Url.DecodeEncode(xs);
    Base64Url.DecodeEncode(ys);
    FromFixedBytes(x, size);
    FromFixedBytes(y, size);
    assert LeftPadded(xs, size)[..size] == xs && LeftPadded(ys, size)[..size] == ys;
  }

  /** A published JWK decodes and re-encodes to itself, under its own alg and kid. */
  lemma Republication(crypto: Crypto, pub: PublicKey, alg: Algorithm, kid: string)
    requires WellTyped(pub) && PublicJwk(crypto, pub, alg, kid).Ok?
    ensures var jwk := PublicJwk(crypto, pub, alg, kid).value;
            && PublicKeyOf(crypto, jwk).Ok?
            && PublicJwk(crypto, PublicKeyOf(crypto, jwk).value, jwk.alg, jwk.kid) == Ok(jwk)
  {
    match pub {
      case RsaKey(n, e) => RsaReconstructs(crypto, n, e, alg, kid);
      case EcKey(curve, x, y) => EcReconstructs(crypto, curve, x, y, alg, kid);
    }
  }

  /** A published RSA JWK spells both integers with the fewest octets. */
  lemma PublishedMinimal(crypto: Crypto, n: nat, e: int, alg: Algorithm, kid: string)
    ensures var jwk := PublicJwk(crypto, RsaKey(n, e), alg, kid).value;
            && Base64Url.Decode(jwk.n).Some? && Minimal(Base64Url.Decode(jwk.n).value)
            && Base64Url.Decode(jwk.e).Some? && Minimal(Base64Url.Decode(jwk.e).value)
  {
    Base64Url.DecodeEncode(ToBytes(n));
    Base64Url.DecodeEncode(ToBytes(Abs(e)));
    ToBytesMinimal(n);
    ToBytesMinimal(Abs(e));
  }

  /** Neither use, alg nor kid, nor any member of the other family, decides what a JWK decodes to. */
  lemma OtherMembersIgnored(crypto: Crypto, k: Jwk, other: Jwk)
    requires k.kty == other.kty
    requires k.kty == "RSA" ==> k.n == other.n && k.e == other.e
    requires k.kty == "EC" ==> k.crv == other.crv && k.x == other.x && k.y == other.y
    ensures PublicKeyOf(crypto, k) == PublicKeyOf(crypto, other)
  {
  }

  /** The octets of a parameter, big-endian. */
  function Parameter(s: string): Option<nat> {
    match Base64Url.Decode(s)
    case Some(b) => Some(FromBytes(b))
    case None => None
  }

  /**
   Exactly which RSA JWKs decode, whoever made them: those whose two integers
   are base64url. The exponent is reduced to 64 signed bits.
   */
  lemma RsaDecodesExactly(crypto: Crypto, k: Jwk)
    requires k.kty == "RSA"
    ensures PublicKeyOf(crypto, k).Ok? <==> Parameter(k.n).Some? && Parameter(k.e).Some?
    ensures PublicKeyOf(crypto, k).Ok? ==>
              var pub := PublicKeyOf(crypto, k).value;
              && pub.RsaKey? && pub.n == Parameter(k.n).value
              && IsInt64(pub.e) && (pub.e - Parameter(k.e).value) % TWO_64 == 0
              && (Parameter(k.e).value < TWO_63 ==> pub.e == Parameter(k.e).value)
    ensures PublicKeyOf(crypto, k).Err? ==> PublicKeyOf(crypto, k).error == InvalidKey
  {
    hide Base64Url.Decode, FromBytes;
  }

  /** The curves a JWK may name, with the width of their coordinates. */
  predicate NamedCurve(name: string, curve: Curve, size: nat) {
    || (name == "P-256" && curve == P256 && size == 32)
    || (name == "P-384" && curve == P384 && size == 48)
    || (name == "P-521" && curve == P521 && size == 66)
  }

  /**
   Exactly which EC JWKs decode: a named curve, two base64url coordinates, and a
   point of that curve in the two slots, where a short coordinate is padded and
   a long one loses its low octets.
   */
  lemma EcDecodesExactly(crypto: Crypto, k: Jwk, pub: PublicKey)
    requires k.kty == "EC"
    ensures PublicKeyOf(crypto, k) == Ok(pub)
       <==> && pub.EcKey? && NamedCurve(k.crv, pub.curve, CoordinateSize(pub.curve))
            && Base64Url.Decode(k.x).Some? && Base64Url.Decode(k.y).Some?
            && pub.x == SlotValue(Base64Url.Decode(k.x).value, CoordinateSize(pub.curve))
            && pub.y == SlotValue(Base64Url.Decode(k.y).value, CoordinateSize(pub.curve))
            && crypto.ValidPoint(pub.curve, pub.x, pub.y)
    ensures PublicKeyOf(crypto, k).Err? ==> PublicKeyOf(crypto, k).error == InvalidKey
  {
    hide Base64Url.Decode, FromBytes, LeftPadded, SlotValue, Pow256;
    if EcCoordinateByteSize(k.crv).Ok? && Base64Url.Decode(k.x).Some? && Base64Url.Decode(k.y).Some? {
      PointBuild(k.crv, Base64Url.Decode(k.x).value, Base64Url.Decode(k.y).value);
    }
  }

  lemma OtherKindsRefused(crypto: Crypto, k: Jwk)
    requires k.kty != "RSA" && k.kty != "EC"
    ensures PublicKeyOf(crypto, k) == Err(InvalidKey)
  {
  }

  /** The one spelling of an octet string that publication uses. */
  predicate CanonicalText(s: string) {
    && Base64Url.StripNewlines(s) == s
    && Base64Url.InAlphabet(s) && |s| % 4 != 1
    && Base64Url.Indices(s).Some? && Base64Url.TrailingBitsZero(Base64Url.Indices(s).value)
  }

  lemma CanonicalDecode(s: string)
    requires Base64Url.Decode(s).Some?
    ensures Base64Url.Encode(Base64Url.Decode(s).value) == s <==> CanonicalText(s)
  {
    hide Base64Url.Decode, Base64Url.Encode;
    Base64Url.DecodeCharacterised(s);
    Base64Url.LettersOfIndices(s);
  }

  lemma CanonicalInteger(s: string)
    requires Base64Url.Decode(s).Some?
    ensures Base64Url.Encode(ToBytes(FromBytes(Base64Url.Decode(s).value))) == s
       <==> CanonicalText(s) && Minimal(Base64Url.Decode(s).value)
  {
    hide Base64Url.Decode, Base64Url.Encode, CanonicalText, FromBytes, ToBytes;
    var b := Base64Url.Decode(s).value;
    CanonicalDecode(s);
    ToFromBytes(b);
    Base64Url.DecodeEncode(ToBytes(FromBytes(b)));
  }

  /** An RSA JWK spelt the way publicJWK spells it: minimal integers, and an exponent an int can hold. */
  predicate RsaAsPublished(k: Jwk) {
    && k.crv == k.x == k.y == ""
    && CanonicalText(k.n) && Base64Url.Decode(k.n).Some? && Minimal(Base64Url.Decode(k.n).value)
    && CanonicalText(k.e) && Base64Url.Decode(k.e).Some? && Minimal(Base64Url.Decode(k.e).value)
    && FromBytes(Base64Url.Decode(k.e).value) <= TWO_63
  }

  /** An EC JWK spelt the way publicJWK spells it: coordinates of exactly the curve's width. */
  predicate EcAsPublished(k: Jwk) {
    && k.n == k.e == "" && EcCoordinateByteSize(k.crv).Ok?
    && var size := EcCoordinateByteSize(k.crv).value;
       && CanonicalText(k.x) && Base64Url.Decode(k.x).Some? && |Base64Url.Decode(k.x).value| == size
       && CanonicalText(k.y) && Base64Url.Decode(k.y).Some? && |Base64Url.Decode(k.y).value| == size
  }

  /**
   Exactly which usable JWKs from elsewhere re-publish unchanged: signing keys
   with no members of the other family, spelt the way publicJWK spells them.
   */
  lemma ForeignRepublication(crypto: Crypto, k: Jwk)
    requires PublicKeyOf(crypto, k).Ok? && k.kid != ""
    ensures PublicJwk(crypto, PublicKeyOf(crypto, k).value, k.alg, k.kid) == Ok(k)
       <==> k.use == "sig" && (if k.kty == "RSA" then RsaAsPublished(k) else EcAsPublished(k))
  {
    hide PublicJwk, PublicKeyOf, RsaAsPublished, EcAsPublished;
    assert k.kty == "RSA" || k.kty == "EC" by { UsableKty(crypto, k); }
    if k.kty == "RSA" {
      ForeignRsa(crypto, k);
    } else {
      ForeignEc(crypto, k);
    }
  }

  lemma UsableKty(crypto: Crypto, k: Jwk)
    requires PublicKeyOf(crypto, k).Ok?
    ensures k.kty == "RSA" || k.kty == "EC"
  {
  }

  lemma ForeignRsa(crypto: Crypto, k: Jwk)
    requires k.kty == "RSA" && PublicKeyOf(crypto, k).Ok? && k.kid != ""
    ensures PublicJwk(crypto, PublicKeyOf(crypto, k).value, k.alg, k.kid) == Ok(k)
       <==> k.use == "sig" && RsaAsPublished(k)
  {
    hide Base64Url.Decode, Base64Url.Encode, CanonicalText, FromBytes, ToBytes, ToInt64, Abs, Minimal;
    var n, e := Base64Url.Decode(k.n).value, Base64Url.Decode(k.e).value;
    CanonicalInteger(k.n);
    CanonicalInteger(k.e);
    var v := FromBytes(e);
    WrappedMagnitude(v);
    if v > TWO_63 {
      Base64Url.DecodeEncode(ToBytes(Abs(ToInt64(v))));
      FromToBytes(Abs(ToInt64(v)));
    }
  }

  lemma ForeignEc(crypto: Crypto, k: Jwk)
    requires k.kty == "EC" && PublicKeyOf(crypto, k).Ok? && k.kid != ""
    ensures PublicJwk(crypto, PublicKeyOf(crypto, k).value, k.alg, k.kid) == Ok(k)
       <==> k.use == "sig" && EcAsPublished(k)
  {
    hide Base64Url.Decode, Base64Url.Encode, CanonicalText, FromBytes, FixedBytes, LeftPadded, EcCoordinateByteSize;
    var size := EcCoordinateByteSize(k.crv).value;
    var x, y := Base64Url.Decode(k.x).value, Base64Url.Decode(k.y).value;
    RepublishedPoint(crypto, k);
    CanonicalCoordinate(k.x, size);
    CanonicalCoordinate(k.y, size);
  }

  /** What an EC JWK is re-published as: the first octets of each padded coordinate. */
  lemma RepublishedPoint(crypto: Crypto, k: Jwk)
    requires k.kty == "EC" && PublicKeyOf(crypto, k).Ok? && k.kid != ""
    ensures EcCoordinateByteSize(k.crv).Ok? && Base64Url.Decode(k.x).Some? && Base64Url.Decode(k.y).Some?
    ensures var size := EcCoordinateByteSize(k.crv).value;
            var x, y := Base64Url.Decode(k.x).value, Base64Url.Decode(k.y).value;
            PublicJwk(crypto, PublicKeyOf(crypto, k).value, k.alg, k.kid)
            == Ok(Jwk("EC", "sig", k.alg, k.kid, "", "", k.crv,
                      Base64Url.Encode(LeftPadded(x, size)[..size]), Base64Url.Encode(LeftPadded(y, size)[..size])))
  {
    hide Base64Url.Decode, Base64Url.Encode, FromBytes, FixedBytes, LeftPadded, Pow256, Thumbprint, EcCanonical;
    var size := EcCoordinateByteSize(k.crv).value;
    var xs := LeftPadded(Base64Url.Decode(k.x).value, size)[..size];
    var ys := LeftPadded(Base64Url.Decode(k.y).value, size)[..size];
    var raw := [4] + xs + ys;
    assert raw[1..1 + size] == xs && raw[1 + size..1 + 2 * size] == ys && raw[1 + size..] == ys;
    FixedFromBytes(xs);
    FixedFromBytes(ys);
  }

  lemma CanonicalCoordinate(s: string, size: nat)
    requires Base64Url.Decode(s).Some?
    ensures Base64Url.Encode(LeftPadded(Base64Url.Decode(s).value, size)[..size]) == s
       <==> CanonicalText(s) && |Base64Url.Decode(s).value| == size
  {
    hide Base64Url.Decode, Base64Url.Encode, CanonicalText;
    var b := Base64Url.Decode(s).value;
    var kept := LeftPadded(b, size)[..size];
    Base64Url.DecodeEncode(kept);
    CanonicalDecode(s);
    if |b| == size {
      assert kept == b;
    }
  }

  lemma WrappedMagnitude(v: nat)
    ensures Abs(ToInt64(v)) == v <==> v <= TWO_63
    ensures IsInt64(ToInt64(v))
  {
  }

  /** Publishing a rebuilt key anywhere, under any algorithm, gives the kid it had by default. */
  lemma DefaultKidStable(crypto: Crypto, pub: PublicKey, alg: Algorithm, alg': Algorithm)
    requires WellTyped(pub) && PublicJwk(crypto, pub, alg, "").Ok?
    ensures var jwk := PublicJwk(crypto, pub, alg, "").value;
            && PublicKeyOf(crypto, jwk).Ok?
            && PublicJwk(crypto, PublicKeyOf(crypto, jwk).value, alg', "") == Ok(jwk.(alg := alg'))
  {
    hide PublicKeyOf, Thumbprint, RsaCanonical, EcCanonical, FixedBytes, Base64Url.Encode, ToBytes;
    match pub {
      case RsaKey(n, e) => RsaReconstructs(crypto, n, e, alg, "");
      case EcKey(curve, x, y) => EcReconstructs(crypto, curve, x, y, alg, "");
    }
  }

  // ----- the point build -----

  /**
   The point buffer for octet strings of any length: one tag octet, then two
   slots. The y slot never depends on x. A slot holds its coordinate's value
   with the excess low octets shifted out.
   */
  lemma PointBuild(crv: string, x: seq<byte>, y: seq<byte>)
    requires EcCoordinateByteSize(crv).Ok?
    ensures var size, enc := EcCoordinateByteSize(crv).value, UncompressedPoint(crv, x, y).value;
            && |enc| == 1 + 2 * size && enc[0] == 4
            && FromBytes(enc[1..1 + size]) == SlotValue(x, size)
            && FromBytes(enc[1 + size..]) == SlotValue(y, size)
  {
    hide LeftPadded, FromBytes, SlotValue;
    var size, enc := EcCoordinateByteSize(crv).value, UncompressedPoint(crv, x, y).value;
    assert enc[1..1 + size] == LeftPadded(x, size)[..size];
    assert enc[1 + size..] == LeftPadded(y, size)[..size];
    SlotValueOf(x, size);
    SlotValueOf(y, size);
  }

  function SlotValue(b: seq<byte>, size: nat): int {
    if |b| <= size then FromBytes(b) else FromBytes(b) / Pow256(|b| - size)
  }

  lemma SlotValueOf(b: seq<byte>, size: nat)
    ensures FromBytes(LeftPadded(b, size)[..size]) == SlotValue(b, size)
  {
    hide FromBytes, Pow256;
    var p := LeftPadded(b, size);
    if |b| <= size {
      assert p[..size] == p;
      LeftPaddedValue(b, size);
    } else {
      FromBytesPrefix(b, size);
    }
  }

  /** A slot keeps its coordinate exactly when the octets fit, or are all zero. */
  lemma SlotKeepsValue(b: seq<byte>, size: nat)
    ensures SlotValue(b, size) == FromBytes(b) <==> |b| <= size || FromBytes(b) == 0
  {
    if |b| > size {
      var k := |b| - size;
      ShrinksUnlessZero(FromBytes(b), Pow256(k));
    }
  }

  lemma ShrinksUnlessZero(v: nat, p: nat)
    requires p >= 2
    ensures v / p == v <==> v == 0
  {
    if v > 0 {
      MulAtLeast(p - 1, v);
      assert (p - 1) * v == v * p - v;
      assert v == v / p * p + v % p;
    }
  }
}
