/**
 The verifier: NewVerifier's scan of a key set, and Verify with the steps the
 JWT library runs for it, in order. Times are nanoseconds since the epoch.
 */
module Verifying {
  import opened Common
  import opened Keys
  import opened Options
  import opened Jwk
  import opened Json
  import opened GoValue
  import opened JsonParser
  import opened Compact
  import opened SortedObject
  import Base64Url
  import JsonRoundTrip

  datatype VerifierOption = ExpectIssuer(iss: string) | ExpectAudience(aud: string)

  /** The fields of a verifier. */
  datatype View = View(
    keys: map<string, Jwk>, allowedAlgs: seq<string>, expectedIssuer: string, expectedAudience: string)

  datatype VerifyError =
    | Malformed | MethodUnavailable | MethodNotAllowed | NoKeyForKid(kid: string)
    | UnusableKey(error: Error) | BadSignature | InvalidClaims

  // ----- construction -----

  /** What is wrong with the key at index i: kid, alg and duplicate are looked at in this order. */
  function Offence(jwks: seq<Jwk>, i: nat): Option<Error>
    requires i < |jwks|
  {
    if jwks[i].kid == "" then Some(JwkWithoutKid)
    else if jwks[i].alg == "" then Some(JwkWithoutAlg(jwks[i].kid))
    else if exists j :: 0 <= j < i && jwks[j].kid == jwks[i].kid then Some(DuplicateKeyId(jwks[i].kid))
    else None
  }

  predicate Inoffensive(jwks: seq<Jwk>, n: nat)
    requires n <= |jwks|
  {
    forall i :: 0 <= i < n ==> Offence(jwks, i).None?
  }

  /** The map is exactly kid to key, over the first n keys. */
  predicate Indexes(m: map<string, Jwk>, jwks: seq<Jwk>) {
    && (forall k :: k in jwks ==> k.kid in m && m[k.kid] == k)
    && (forall kid :: kid in m ==> m[kid] in jwks && m[kid].kid == kid)
  }

  /** A listing of exactly the algorithms present. */
  predicate Lists(algs: seq<string>, jwks: seq<Jwk>) {
    && (forall k :: k in jwks ==> k.alg in algs)
    && (forall a :: a in algs ==> exists k :: k in jwks && k.alg == a)
  }

  predicate NoDuplicates(algs: seq<string>) { forall i, j :: 0 <= i < j < |algs| ==> algs[i] != algs[j] }

  /** The value the last matching option sets, or the empty string. */
  function ExpectedIssuer(opts: seq<VerifierOption>): string {
    if opts == [] then ""
    else
      var last := opts[|opts| - 1];
      if last.ExpectIssuer? then last.iss else ExpectedIssuer(opts[..|opts| - 1])
  }

  function ExpectedAudience(opts: seq<VerifierOption>): string {
    if opts == [] then ""
    else
      var last := opts[|opts| - 1];
      if last.ExpectAudience? then last.aud else ExpectedAudience(opts[..|opts| - 1])
  }

  /** What NewVerifier makes of an inoffensive key set. */
  predicate Describes(v: View, jwks: seq<Jwk>, opts: seq<VerifierOption>) {
    && Indexes(v.keys, jwks) && Lists(v.allowedAlgs, jwks) && NoDuplicates(v.allowedAlgs)
    && v.expectedIssuer == ExpectedIssuer(opts) && v.expectedAudience == ExpectedAudience(opts)
  }

  class Verifier {
    var keys: map<string, Jwk>
    var allowedAlgs: seq<string>
    var expectedIssuer: string
    var expectedAudience: string

    constructor ()
      ensures Value() == View(map[], [], "", "")
    {
      keys, allowedAlgs, expectedIssuer, expectedAudience := map[], [], "", "";
    }

    function Value(): View
      reads this
    {
      View(keys, allowedAlgs, expectedIssuer, expectedAudience)
    }

    /** The loop over the key set, with its early exits. */
    method ReadKeys(jwks: seq<Jwk>) returns (err: Option<Error>, algs: set<string>)
      requires keys == map[]
      modifies this`keys
      ensures err.None? <==> Inoffensive(jwks, |jwks|)
      ensures err.None? ==> Indexes(keys, jwks) && algs == set k | k in jwks :: k.alg
      ensures err.Some? ==> exists i :: 0 <= i < |jwks| && Inoffensive(jwks, i) && Offence(jwks, i) == err
    {
      algs := {};
      for i := 0 to |jwks|
        invariant Inoffensive(jwks, i)
        invariant forall j :: 0 <= j < i ==> jwks[j].kid in keys && keys[jwks[j].kid] == jwks[j]
        invariant forall kid :: kid in keys ==> exists j :: 0 <= j < i && jwks[j] == keys[kid] && jwks[j].kid == kid
        invariant algs == set j | 0 <= j < i :: jwks[j].alg
      {
        var k := jwks[i];
        if k.kid == "" {
          assert Offence(jwks, i) == Some(JwkWithoutKid);
          return Some(JwkWithoutKid), algs;
        }
        if k.alg == "" {
          assert Offence(jwks, i) == Some(JwkWithoutAlg(k.kid));
          return Some(JwkWithoutAlg(k.kid)), algs;
        }
        if k.kid in keys {
          assert Offence(jwks, i) == Some(DuplicateKeyId(k.kid));
          return Some(DuplicateKeyId(k.kid)), algs;
        }
        keys := keys[k.kid := k];
        algs := algs + {k.alg};
      }
      assert algs == set k | k in jwks :: k.alg;
      return None, algs;
    }

    /** The loop over the algorithm set, in whatever order the map is ranged over. */
    method ListAlgs(algs: set<string>)
      requires allowedAlgs == []
      modifies this`allowedAlgs
      ensures (forall a :: a in allowedAlgs <==> a in algs) && NoDuplicates(allowedAlgs)
    {
      var rest := algs;
      while rest != {}
        invariant rest <= algs
        invariant forall a :: a in allowedAlgs <==> a in algs && a !in rest
        invariant NoDuplicates(allowedAlgs)
        decreases |rest|
      {
        var a :| a in rest;
        allowedAlgs := allowedAlgs + [a];
        rest := rest - {a};
      }
    }

    /** Each option writes one field. */
    method ApplyOptions(opts: seq<VerifierOption>)
      requires expectedIssuer == expectedAudience == ""
      modifies this`expectedIssuer, this`expectedAudience
      ensures expectedIssuer == ExpectedIssuer(opts) && expectedAudience == ExpectedAudience(opts)
    {
      assert opts[..0] == [];
      for i := 0 to |opts|
        invariant expectedIssuer == ExpectedIssuer(opts[..i]) && expectedAudience == ExpectedAudience(opts[..i])
      {
        assert opts[..i + 1][..i] == opts[..i];
        match opts[i] {
          case ExpectIssuer(iss) => expectedIssuer := iss;
          case ExpectAudience(aud) => expectedAudience := aud;
        }
      }
      assert opts[..|opts|] == opts;
    }

    /** The allowlist, which the library skips when the list is nil. */
    method AlgorithmAllowed(alg: string) returns (allowed: bool)
      ensures allowed <==> allowedAlgs == [] || alg in allowedAlgs
    {
      if |allowedAlgs| == 0 {
        return true;
      }
      for i := 0 to |allowedAlgs|
        invariant alg !in allowedAlgs[..i]
      {
        if allowedAlgs[i] == alg {
          return true;
        }
      }
      assert allowedAlgs[..|allowedAlgs|] == allowedAlgs;
      return false;
    }

    /** keyfunc: an absent or non-string kid reads as the empty string. */
    method Keyfunc(crypto: Crypto, header: map<string, Any>) returns (r: Result<PublicKey, VerifyError>)
      ensures r == KeyFor(crypto, keys, header)
    {
      var kid := "";
      if "kid" in header && header["kid"].GoString? {
        kid := header["kid"].s;
      }
      if kid !in keys {
        return Err(NoKeyForKid(kid));
      }
      var pub := PublicKeyOf(crypto, keys[kid]);
      if pub.Err? {
        return Err(UnusableKey(pub.error));
      }
      return Ok(pub.value);
    }

    /** Verify: the library's steps, each with its own way out. */
    method Verify(crypto: Crypto, token: string, now: int) returns (r: Result<map<string, Any>, VerifyError>)
      ensures r == Verified(crypto, Value(), token, now)
    {
      hide ParseUnverified, KeyFor, SignatureValid, ClaimsValid, Base64Url.Decode, RegisteredMethod;
      var parsed := ParseUnverified(token);
      if parsed.None? {
        return Err(Malformed);
      }
      var t := parsed.value;
      if "alg" !in t.header || !t.header["alg"].GoString? || !RegisteredMethod(t.header["alg"].s) {
        return Err(MethodUnavailable);
      }
      var alg := t.header["alg"].s;
      var allowed := AlgorithmAllowed(alg);
      if !allowed {
        return Err(MethodNotAllowed);
      }
      var sig := Base64Url.Decode(t.sig);
      if sig.None? {
        return Err(Malformed);
      }
      var pub := Keyfunc(crypto, t.header);
      if pub.Err? {
        return Err(pub.error);
      }
      if !SignatureValid(crypto, pub.value, alg, t.input, sig.value) {
        return Err(BadSignature);
      }
      if !ClaimsValid(t.claims, Value(), now) {
        return Err(InvalidClaims);
      }
      return Ok(t.claims);
    }
  }

  /**
   NewVerifier: it succeeds exactly on inoffensive sets, and otherwise reports
   the offence of the earliest offending key.
   */
  method NewVerifier(jwks: seq<Jwk>, opts: seq<VerifierOption>) returns (r: Result<Verifier, Error>)
    ensures r.Ok? <==> Inoffensive(jwks, |jwks|)
    ensures r.Ok? ==> fresh(r.value) && Describes(r.value.Value(), jwks, opts)
    ensures r.Err? ==> exists i :: 0 <= i < |jwks| && Inoffensive(jwks, i) && Offence(jwks, i) == Some(r.error)
  {
    var v := new Verifier();
    var err, algs := v.ReadKeys(jwks);
    if err.Some? {
      return Err(err.value);
    }
    v.ListAlgs(algs);
    v.ApplyOptions(opts);
    return Ok(v);
  }

  // ----- acceptance -----

  /** The signing methods the JWT library has registered. */
  predicate RegisteredMethod(alg: string) {
    Supported(alg) || alg in {"HS256", "HS384", "HS512", "EdDSA", "none"}
  }

  /** A member as a string, or nothing when it is absent or of another type. */
  function StringMember(m: map<string, Any>, name: string): Option<string> {
    if name in m && m[name].GoString? then Some(m[name].s) else None
  }

  /** The key a header leads to. */
  function KeyFor(crypto: Crypto, keys: map<string, Jwk>, header: map<string, Any>): Result<PublicKey, VerifyError> {
    var kid := match StringMember(header, "kid") case Some(s) => s case None => "";
    if kid !in keys then Err(NoKeyForKid(kid))
    else
      match PublicKeyOf(crypto, keys[kid])
      case Ok(pub) => Ok(pub)
      case Err(e) => Err(UnusableKey(e))
  }

  /** The library's method refuses keys of another family before it looks at the signature. */
  predicate SignatureValid(crypto: Crypto, pub: PublicKey, alg: string, input: string, sig: seq<byte>) {
    SameFamily(pub, alg) && crypto.verify(pub, alg, input, sig)
  }

  /**
   The whole second a NumericDate stands for: its fraction is cut to nanoseconds
   towards zero, and the time to the second before or at it.
   */
  function DateSeconds(x: real): int {
    if x >= 0.0 then x.Floor
    else
      var whole := -(-x).Floor;
      if x - whole as real <= -0.000000001 then whole - 1 else whole
  }

  /** A NumericDate claim: an absent or zero one counts as not given. */
  function Date(claims: map<string, Any>, name: string): Result<Option<int>, VerifyError> {
    if name !in claims then Ok(None)
    else if !claims[name].GoFloat? then Err(InvalidClaims)
    else if claims[name].x == 0.0 then Ok(None)
    else Ok(Some(DateSeconds(claims[name].x)))
  }

  /** An expiry is required, and must lie ahead. */
  predicate Unexpired(claims: map<string, Any>, now: int) {
    var exp := Date(claims, "exp");
    exp.Ok? && exp.value.Some? && now < exp.value.value * SECOND
  }

  predicate Started(claims: map<string, Any>, now: int) {
    var nbf := Date(claims, "nbf");
    nbf.Ok? && (nbf.value.Some? ==> now >= nbf.value.value * SECOND)
  }

  predicate IssuerMatches(claims: map<string, Any>, expected: string) {
    expected != "" ==> StringMember(claims, "iss") == Some(expected)
  }

  /** aud may be one string or an array of strings. */
  predicate AudienceMatches(claims: map<string, Any>, expected: string) {
    expected != "" ==>
      "aud" in claims &&
      match claims["aud"]
      case GoString(s) => s == expected
      case GoSlice(items) => GoString(expected) in items && forall v :: v in items ==> v.GoString?
      case _ => false
  }

  predicate ClaimsValid(claims: map<string, Any>, v: View, now: int) {
    && Unexpired(claims, now) && Started(claims, now)
    && IssuerMatches(claims, v.expectedIssuer) && AudienceMatches(claims, v.expectedAudience)
  }

  /** A token before any check: its header, claims, signature segment and signed text. */
  datatype Unverified = Unverified(header: map<string, Any>, claims: map<string, Any>, sig: string, input: string)

  /**
   json.Unmarshal of a segment into a map of any: every number becomes a double,
   and one no double can hold is an error, even in a member that a later one
   replaces. The document null leaves the map empty.
   */
  function ReadObject(segment: string): Option<map<string, Any>> {
    var text :- SegmentText(segment);
    var v :- ParseDocument(text);
    if !FiniteValue(v) then None
    else
      match v
      case Obj(members) => Some(RoundedMap(ExactMembers(members)))
      case Null => Some(map[])
      case _ => None
  }

  lemma ReadPrinted(m: map<string, Value>)
    ensures ReadObject(Segment(PrintMap(m))) == if FiniteMap(m) then Some(ReadBack(m)) else None
  {
    hide SegmentText, Segment, ParseDocument, SortedMembers, FiniteValue, Print, RoundedMap, ExactMembers;
    SegmentRoundTrip(PrintMap(m));
    JsonRoundTrip.ParseDocumentPrint(Obj(SortedMembers(m)));
    FiniteSorted(m);
    ToMapSorted(m);
    ExactMembersMap(SortedMembers(m));
  }

  lemma FiniteSorted(m: map<string, Value>)
    ensures FiniteValue(Obj(SortedMembers(m))) <==> FiniteMap(m)
  {
    hide SortedKeys;
    SortedKeysSorted(m.Keys);
    KeySetContains(SortedKeys(m.Keys));
    var keys, ms := SortedKeys(m.Keys), SortedMembers(m);
    if FiniteValue(Obj(ms)) {
      forall k | k in m ensures FiniteValue(m[k]) {
        assert k in keys;
        var i :| 0 <= i < |keys| && keys[i] == k;
        assert ms[i].value == m[k];
      }
    }
  }

  function ParseUnverified(token: string): Option<Unverified> {
    var parts :- SplitToken(token);
    var header :- ReadObject(parts.0);
    var claims :- ReadObject(parts.1);
    Some(Unverified(header, claims, parts.2, parts.0 + ['.'] + parts.1))
  }

  /** Verify and the library's ParseWithClaims. */
  function Verified(crypto: Crypto, v: View, token: string, now: int): Result<map<string, Any>, VerifyError> {
    match ParseUnverified(token)
    case None => Err(Malformed)
    case Some(t) => Checked(crypto, v, t, now)
  }

  /** The checks on a parsed token. With no algorithm listed at all the library skips the allowlist. */
  function Checked(crypto: Crypto, v: View, t: Unverified, now: int): Result<map<string, Any>, VerifyError> {
    var alg := StringMember(t.header, "alg");
    if alg.None? || !RegisteredMethod(alg.value) then Err(MethodUnavailable)
    else if v.allowedAlgs != [] && alg.value !in v.allowedAlgs then Err(MethodNotAllowed)
    else
      var sig := Base64Url.Decode(t.sig);
      if sig.None? then Err(Malformed)
      else
        var pub :- KeyFor(crypto, v.keys, t.header);
        if !SignatureValid(crypto, pub, alg.value, t.input, sig.value) then Err(BadSignature)
        else if !ClaimsValid(t.claims, v, now) then Err(InvalidClaims)
        else Ok(t.claims)
  }

  /** A parsed token passes all the checks. */
  predicate Passes(crypto: Crypto, v: View, t: Unverified, alg: string, octets: seq<byte>, pub: PublicKey, now: int) {
    && StringMember(t.header, "alg") == Some(alg) && RegisteredMethod(alg)
    && (v.allowedAlgs == [] || alg in v.allowedAlgs)
    && Base64Url.Decode(t.sig) == Some(octets)
    && KeyFor(crypto, v.keys, t.header) == Ok(pub)
    && SignatureValid(crypto, pub, alg, t.input, octets)
    && ClaimsValid(t.claims, v, now)
  }

  lemma PassesIsChecked(
    crypto: Crypto, v: View, t: Unverified, alg: string, octets: seq<byte>, pub: PublicKey, now: int)
    requires Passes(crypto, v, t, alg, octets, pub, now)
    ensures Checked(crypto, v, t, now) == Ok(t.claims)
  {
    hide RegisteredMethod, KeyFor, SignatureValid, ClaimsValid, Base64Url.Decode, StringMember;
  }

  lemma CheckedPasses(crypto: Crypto, v: View, t: Unverified, now: int)
    returns (alg: string, octets: seq<byte>, pub: PublicKey)
    requires Checked(crypto, v, t, now).Ok?
    ensures Passes(crypto, v, t, alg, octets, pub, now) && Checked(crypto, v, t, now) == Ok(t.claims)
  {
    hide RegisteredMethod, KeyFor, SignatureValid, ClaimsValid, Base64Url.Decode, StringMember;
    alg := StringMember(t.header, "alg").value;
    octets := Base64Url.Decode(t.sig).value;
    pub := KeyFor(crypto, v.keys, t.header).value;
  }
}
