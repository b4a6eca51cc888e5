/** Publishing a key as a JWK, and reading the JWK back into a key. */
module Jwk {
  import opened Common
  import opened BigEndian
  import opened Keys
  import Base64Url
  import Json
  import Utf8

  /** A public RSA or EC signing key; an absent parameter is the empty string. */
  datatype Jwk = Jwk(
    kty: string, use: string, alg: string, kid: string,
    n: string, e: string, crv: string, x: string, y: string)

  // ----- publication -----

  /** curveParams: the name and coordinate size of an approved curve. */
  function CurveParams(c: Curve): Result<(string, nat), Error> {
    match c
    case P256 => Ok(("P-256", 32))
    case P384 => Ok(("P-384", 48))
    case P521 => Ok(("P-521", 66))
    case P224 => Err(InvalidKey)
  }

  /** ecdsa.PublicKey.Bytes: the uncompressed point, or an error for a point off the curve. */
  function EcBytes(crypto: Crypto, curve: Curve, x: nat, y: nat): Result<seq<byte>, Error> {
    if crypto.ValidPoint(curve, x, y) then
      Ok([4] + FixedBytes(x, CoordinateSize(curve)) + FixedBytes(y, CoordinateSize(curve)))
    else Err(InvalidKey)
  }

  /** strconv.Quote. */
  function QuoteChar(c: char): string {
    if c == '\"' || c == '\\' then ['\\', c]
    else if ' ' <= c && c as int != 127 then [c]
    else if c as int == 7 then "\\a"
    else if c as int == 8 then "\\b"
    else if c as int == 12 then "\\f"
    else if c == '\n' then "\\n"
    else if c == '\r' then "\\r"
    else if c == '\t' then "\\t"
    else if c as int == 11 then "\\v"
    else ['\\', 'x', Json.HexDigit(c as int / 16), Json.HexDigit(c as int % 16)]
  }

  function QuoteChars(s: string): string {
    if s == [] then [] else QuoteChar(s[0]) + QuoteChars(s[1..])
  }

  function Quote(s: string): string { ['\"'] + QuoteChars(s) + ['\"'] }

  /** The hash input of an RSA thumbprint (section 3 of RFC 7638). */
  function RsaCanonical(n: string, e: string): string {
    "{\"e\":" + (Quote(e) + (",\"kty\":\"RSA\",\"n\":" + (Quote(n) + "}")))
  }

  function EcCanonical(crv: string, x: string, y: string): string {
    "{\"crv\":" + (Quote(crv) + (",\"kty\":\"EC\",\"x\":" + (Quote(x) + (",\"y\":" + (Quote(y) + "}")))))
  }

  function Thumbprint(crypto: Crypto, canonical: string): string {
    Base64Url.Encode(crypto.sha256(Utf8.Encode(canonical)))
  }

  function Abs(e: int): nat { if e < 0 then -e else e }

  /** publicJWK. */
  function PublicJwk(crypto: Crypto, pub: PublicKey, alg: Algorithm, kid: string): Result<Jwk, Error> {
    match pub
    case RsaKey(n, e) =>
      var nText, eText := Base64Url.Encode(ToBytes(n)), Base64Url.Encode(ToBytes(Abs(e)));
      var keyId := if kid == "" then Thumbprint(crypto, RsaCanonical(nText, eText)) else kid;
      Ok(Jwk("RSA", "sig", alg, keyId, nText, eText, "", "", ""))
    case EcKey(curve, x, y) =>
      var (crv, size) :- CurveParams(curve);
      var raw :- EcBytes(crypto, curve, x, y);
      if |raw| != 1 + 2 * size || raw[0] != 4 then Err(InvalidKey)
      else
        var xText, yText := Base64Url.Encode(raw[1..1 + size]), Base64Url.Encode(raw[1 + size..1 + 2 * size]);
        var keyId := if kid == "" then Thumbprint(crypto, EcCanonical(crv, xText, yText)) else kid;
        Ok(Jwk("EC", "sig", alg, keyId, "", "", crv, xText, yText))
  }

  // ----- reconstruction -----

  function CurveFromName(name: string): Result<Curve, Error> {
    if name == "P-256" then Ok(P256)
    else if name == "P-384" then Ok(P384)
    else if name == "P-521" then Ok(P521)
    else Err(InvalidKey)
  }

  function EcCoordinateByteSize(crv: string): Result<nat, Error> {
    if crv == "P-256" then Ok(32)
    else if crv == "P-384" then Ok(48)
    else if crv == "P-521" then Ok(66)
    else Err(InvalidKey)
  }

  /** big.Int.Int64: the low 64 bits, as a signed number. */
  function ToInt64(v: nat): int {
    var low := v % TWO_64;
    if low >= TWO_63 then low - TWO_64 else low
  }

  /** The point ecUncompressedPoint builds: both slots hold the first `size` octets of the padded coordinate. */
  function UncompressedPoint(crv: string, x: seq<byte>, y: seq<byte>): Result<seq<byte>, Error> {
    var size :- EcCoordinateByteSize(crv);
    Ok([4] + LeftPadded(x, size)[..size] + LeftPadded(y, size)[..size])
  }

  /** ecdsa.ParseUncompressedPublicKey. */
  function ParsePoint(crypto: Crypto, curve: Curve, enc: seq<byte>): Result<PublicKey, Error> {
    var size := CoordinateSize(curve);
    if |enc| != 1 + 2 * size || enc[0] != 4 then Err(InvalidKey)
    else
      var x, y := FromBytes(enc[1..1 + size]), FromBytes(enc[1 + size..]);
      if crypto.ValidPoint(curve, x, y) then Ok(EcKey(curve, x, y)) else Err(InvalidKey)
  }

  function DecodeParameter(s: string): Result<seq<byte>, Error> {
    match Base64Url.Decode(s)
    case Some(b) => Ok(b)
    case None => Err(InvalidKey)
  }

  /** JWK.publicKey. */
  function PublicKeyOf(crypto: Crypto, k: Jwk): Result<PublicKey, Error> {
    if k.kty == "RSA" then
      var n :- DecodeParameter(k.n);
      var e :- DecodeParameter(k.e);
      Ok(RsaKey(FromBytes(n), ToInt64(FromBytes(e))))
    else if k.kty == "EC" then
      var curve :- CurveFromName(k.crv);
      var x :- DecodeParameter(k.x);
      var y :- DecodeParameter(k.y);
      var enc :- UncompressedPoint(k.crv, x, y);
      ParsePoint(crypto, curve, enc)
    else Err(InvalidKey)
  }

  // ----- the in-place point build -----

  /** leftPad: the slice itself when it is long enough, else a fresh zero-padded copy. */
  method LeftPad(b: array<byte>, size: nat) returns (out: array<byte>)
    ensures b.Length >= size ==> out == b
    ensures b.Length < size ==> fresh(out)
    ensures out[..] == LeftPadded(b[..], size)
  {
    if b.Length >= size {
      return b;
    }
    out := new byte[size](_ => 0);
    CopySlice(out, size - b.Length, b);
    assert out[..] == LeftPadded(b[..], size);
  }

  /** The value of Go's copy(dst[at:], src): as many octets as fit. */
  function Copied(dst: seq<byte>, at: nat, src: seq<byte>): (r: seq<byte>)
    requires at <= |dst|
    ensures |r| == |dst|
  {
    var n := if |src| <= |dst| - at then |src| else |dst| - at;
    dst[..at] + src[..n] + dst[at + n..]
  }

  method CopySlice(dst: array<byte>, at: nat, src: array<byte>)
    requires at <= dst.Length && dst != src
    modifies dst
    ensures dst[..] == Copied(old(dst[..]), at, src[..])
  {
    var n := if src.Length <= dst.Length - at then src.Length else dst.Length - at;
    for i := 0 to n
      invariant forall j :: 0 <= j < i ==> dst[at + j] == src[j]
      invariant forall j :: 0 <= j < at || at + i <= j < dst.Length ==> dst[j] == old(dst[j])
    {
      dst[at + i] := src[i];
    }
  }

  /** Whatever the first copy leaves in the y slot, the second copy replaces. */
  lemma TwoCopies(buffer: seq<byte>, size: nat, px: seq<byte>, py: seq<byte>)
    requires |buffer| == 1 + 2 * size && |px| >= size && |py| >= size
    ensures Copied(Copied(buffer, 1, px), 1 + size, py) == [buffer[0]] + px[..size] + py[..size]
  {
    var first := Copied(buffer, 1, px);
    assert first[..1 + size] == [buffer[0]] + px[..size];
    assert Copied(first, 1 + size, py) == first[..1 + size] + py[..size];
  }

  /** ecUncompressedPoint. An over-long x spills into the y slot before y is copied. */
  method EcUncompressedPoint(crv: string, x: array<byte>, y: array<byte>) returns (r: Result<array<byte>, Error>)
    ensures r.Err? <==> EcCoordinateByteSize(crv).Err?
    ensures r.Err? ==> UncompressedPoint(crv, x[..], y[..]) == Err(r.error)
    ensures r.Ok? ==> fresh(r.value) && UncompressedPoint(crv, x[..], y[..]) == Ok(r.value[..])
  {
    hide Copied, LeftPadded;
    var s := EcCoordinateByteSize(crv);
    if s.Err? {
      return Err(s.error);
    }
    var size := s.value;
    var enc := new byte[1 + 2 * size](_ => 0);
    enc[0] := 4;
    ghost var buffer := enc[..];
    var px := LeftPad(x, size);
    var py := LeftPad(y, size);
    CopySlice(enc, 1, px);
    CopySlice(enc, 1 + size, py);
    TwoCopies(buffer, size, px[..], py[..]);
    r := Ok(enc);
  }
}
