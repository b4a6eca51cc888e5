/** Acceptance: what it guarantees, and how it depends on the key set. */
module VerifyingLaws {
  import opened Common
  import opened Keys
  import opened Options
  import opened Jwk
  import opened Json
  import opened GoValue
  import opened JsonParser
  import opened JsonGrammar
  import opened Compact
  import opened Verifying
  import Base64Url
  import Utf8

  // ----- construction -----

  predicate DistinctKids(jwks: seq<Jwk>) {
    forall i, j :: 0 <= i < j < |jwks| ==> jwks[i].kid != jwks[j].kid
  }

  predicate NamedKeys(jwks: seq<Jwk>) { forall k :: k in jwks ==> k.kid != "" && k.alg != "" }

  /** A key set is accepted exactly when every key has a kid and an alg and no kid comes twice. */
  lemma InoffensiveExactly(jwks: seq<Jwk>)
    ensures Inoffensive(jwks, |jwks|) <==> NamedKeys(jwks) && DistinctKids(jwks)
  {
    if NamedKeys(jwks) && DistinctKids(jwks) {
      forall i | 0 <= i < |jwks| ensures Offence(jwks, i).None? {
        assert jwks[i] in jwks;
      }
    }
    if Inoffensive(jwks, |jwks|) {
      forall k | k in jwks ensures k.kid != "" && k.alg != "" {
        var i :| 0 <= i < |jwks| && jwks[i] == k;
        assert Offence(jwks, i).None?;
      }
      forall i, j | 0 <= i < j < |jwks| ensures jwks[i].kid != jwks[j].kid {
        assert Offence(jwks, j).None?;
      }
    }
  }

  /** What is wrong with a key, and with which kid, when the keys before it are in order. */
  lemma OffenceExactly(jwks: seq<Jwk>, i: nat)
    requires i < |jwks| && Inoffensive(jwks, i)
    ensures var k, offence := jwks[i], Offence(jwks, i);
            && (k.kid == "" <==> offence == Some(JwkWithoutKid))
            && (k.kid != "" && k.alg == "" <==> offence == Some(JwkWithoutAlg(k.kid)))
            && (k.kid != "" && k.alg != "" && (exists j :: 0 <= j < i && jwks[j].kid == k.kid)
                <==> offence == Some(DuplicateKeyId(k.kid)))
            && (offence.Some? ==> offence.value in {JwkWithoutKid, JwkWithoutAlg(k.kid), DuplicateKeyId(k.kid)})
  {
  }

  /** Each expectation is the one set last, whatever the options between and after set; unset, it is empty. */
  lemma {:induction false} LastOptionWins(
    before: seq<VerifierOption>, last: VerifierOption, after: seq<VerifierOption>)
    ensures ExpectedIssuer([]) == ExpectedAudience([]) == ""
    ensures last.ExpectIssuer? && (forall o :: o in after ==> o.ExpectAudience?) ==>
              ExpectedIssuer(before + [last] + after) == last.iss
    ensures last.ExpectAudience? && (forall o :: o in after ==> o.ExpectIssuer?) ==>
              ExpectedAudience(before + [last] + after) == last.aud
    ensures (forall o :: o in after ==> o.ExpectAudience?) ==> ExpectedIssuer(after) == ""
    ensures (forall o :: o in after ==> o.ExpectIssuer?) ==> ExpectedAudience(after) == ""
    decreases |after|
  {
    var all := before + [last] + after;
    if after == [] {
      assert all[..|all| - 1] == before && all[|all| - 1] == last;
    } else {
      var init, end := after[..|after| - 1], after[|after| - 1];
      assert all[..|all| - 1] == before + [last] + init && all[|all| - 1] == end && end in after;
      assert forall o :: o in init ==> o in after;
      LastOptionWins(before, last, init);
    }
  }

  /** A refused set names the first key that offends, and the offence of no other. */
  lemma OffenceUnique(jwks: seq<Jwk>, i: nat, j: nat)
    requires i < |jwks| && Inoffensive(jwks, i) && Offence(jwks, i).Some?
    requires j < |jwks| && Inoffensive(jwks, j) && Offence(jwks, j).Some?
    ensures i == j
  {
  }

  // ----- soundness -----

  /**
   A segment holds m: it is base64url of a JSON text, with any blanks and any
   spelling of its strings, whose numbers all have doubles. The text says an
   object, whose members m holds as Go values, or null, which is as an empty one.
   */
  ghost predicate Holds(segment: string, m: map<string, Any>) {
    && Base64Url.Decode(segment).Some?
    && exists i ::
         && WellFormedItem(i) && ItemText(i) == Utf8.Decode(Base64Url.Decode(segment).value)
         && FiniteValue(Meaning(i.node))
         && match Meaning(i.node)
            case Obj(members) => m == RoundedMap(ExactMembers(members))
            case Null => m == map[]
            case _ => false
  }

  /** Exactly which segments are read, and as what. */
  lemma ReadObjectExactly(segment: string, m: map<string, Any>)
    ensures ReadObject(segment) == Some(m) <==> Holds(segment, m)
  {
    hide Base64Url.Decode, Utf8.Decode, ParseDocument, WellFormedItem, ItemText, Meaning, FiniteValue;
    hide RoundedMap, ExactMembers;
    if Base64Url.Decode(segment).Some? {
      var text := Utf8.Decode(Base64Url.Decode(segment).value);
      if ReadObject(segment) == Some(m) {
        DocumentsReadExactly(text, ParseDocument(text).value);
      }
      if Holds(segment, m) {
        var i :| WellFormedItem(i) && ItemText(i) == text && FiniteValue(Meaning(i.node))
                 && match Meaning(i.node)
                    case Obj(members) => m == RoundedMap(ExactMembers(members))
                    case Null => m == map[]
                    case _ => false;
        DocumentsReadExactly(text, Meaning(i.node));
      }
    }
  }

  /** The parts a token splits into, and what the three segments decode to. */
  ghost predicate Parts(token: string, head: string, body: string, sig: string,
                        header: map<string, Any>, claims: map<string, Any>, octets: seq<byte>)
  {
    && token == head + ['.'] + body + ['.'] + sig && NoPeriod(head) && NoPeriod(body) && NoPeriod(sig)
    && Holds(head, header) && Holds(body, claims) && Base64Url.Decode(sig) == Some(octets)
  }

  predicate Stands(m: map<string, Any>, name: string, a: Any) { name in m && m[name] == a }

  /** The key of the set that a header names, by a kid that is never empty. */
  ghost predicate NamedKey(crypto: Crypto, jwks: seq<Jwk>, header: map<string, Any>, k: Jwk, pub: PublicKey) {
    k in jwks && k.kid != "" && Stands(header, "kid", GoString(k.kid)) && PublicKeyOf(crypto, k) == Ok(pub)
  }

  /** A signature under an algorithm some key of the set lists, of the named key's family. */
  ghost predicate SignedUnderListed(
    crypto: Crypto, jwks: seq<Jwk>, header: map<string, Any>, pub: PublicKey, input: string, octets: seq<byte>)
  {
    exists other :: other in jwks && Stands(header, "alg", GoString(other.alg))
                    && SameFamily(pub, other.alg) && crypto.verify(pub, other.alg, input, octets)
  }

  /** A date stands under the name: a number other than zero, which counts from the second d on. */
  ghost predicate Dated(claims: map<string, Any>, name: string, d: int) {
    exists x: real :: Stands(claims, name, GoFloat(x)) && x != 0.0 && BeginsWith(d, x)
  }

  /**
   The whole second of a date: the one before it, except that a date before the
   epoch less than a nanosecond under a whole second counts as that second.
   */
  predicate BeginsWith(d: int, x: real) {
    if x >= 0.0 then d as real <= x < d as real + 1.0
    else d as real - 0.000000001 < x <= d as real + 1.0 - 0.000000001
  }

  lemma DateSecondsExactly(x: real, d: int)
    ensures DateSeconds(x) == d <==> BeginsWith(d, x)
  {
  }

  /** Claims within their dates, from the expected issuer, for the expected audience. */
  ghost predicate Current(v: View, claims: map<string, Any>, now: int) {
    && (exists exp :: Dated(claims, "exp", exp) && now < exp * SECOND)
    && (|| "nbf" !in claims || claims["nbf"] == GoFloat(0.0)
        || exists nbf :: Dated(claims, "nbf", nbf) && nbf * SECOND <= now)
    && (v.expectedIssuer != "" ==> Stands(claims, "iss", GoString(v.expectedIssuer)))
    && (v.expectedAudience != "" ==>
          || Stands(claims, "aud", GoString(v.expectedAudience))
          || exists texts: seq<string> ::
               Stands(claims, "aud", GoSlice(GoStrings(texts))) && v.expectedAudience in texts)
  }

  function GoStrings(texts: seq<string>): (items: seq<Any>)
    ensures |items| == |texts| && forall i :: 0 <= i < |items| ==> items[i] == GoString(texts[i])
  {
    seq(|texts|, i requires 0 <= i < |texts| => GoString(texts[i]))
  }

  ghost predicate Vouched(
    crypto: Crypto, v: View, jwks: seq<Jwk>, token: string, now: int, claims: map<string, Any>)
  {
    exists head, body, sig, header, octets, k, pub ::
      Parts(token, head, body, sig, header, claims, octets) && NamedKey(crypto, jwks, header, k, pub)
      && SignedUnderListed(crypto, jwks, header, pub, head + ['.'] + body, octets) && Current(v, claims, now)
  }

  lemma DatedIsDate(claims: map<string, Any>, name: string, d: int)
    ensures Dated(claims, name, d) <==> Date(claims, name) == Ok(Some(d))
  {
    if name in claims && claims[name].GoFloat? {
      DateSecondsExactly(claims[name].x, d);
    }
    hide DateSeconds, BeginsWith;
  }

  lemma NoDate(claims: map<string, Any>, name: string)
    ensures Date(claims, name) == Ok(None) <==> name !in claims || claims[name] == GoFloat(0.0)
  {
    hide DateSeconds;
  }

  lemma AudienceSpelledOut(claims: map<string, Any>, expected: string)
    ensures AudienceMatches(claims, expected)
       <==> (expected != "" ==>
               || Stands(claims, "aud", GoString(expected))
               || exists texts: seq<string> :: Stands(claims, "aud", GoSlice(GoStrings(texts))) && expected in texts)
  {
    if "aud" in claims && claims["aud"].GoSlice? {
      var items := claims["aud"].items;
      if forall v :: v in items ==> v.GoString? {
        var texts := seq(|items|, i requires 0 <= i < |items| => (assert items[i] in items; items[i].s));
        forall i | 0 <= i < |items| ensures items[i] == GoStrings(texts)[i] {
          assert items[i] in items;
        }
        assert items == GoStrings(texts);
        if GoString(expected) in items {
          var i :| 0 <= i < |items| && items[i] == GoString(expected);
          assert texts[i] == expected;
        }
      }
      if texts: seq<string> :| Stands(claims, "aud", GoSlice(GoStrings(texts))) && expected in texts {
        var i :| 0 <= i < |texts| && texts[i] == expected;
        assert items[i] == GoString(expected);
      }
    }
  }

  lemma CurrentIsValid(v: View, claims: map<string, Any>, now: int)
    ensures Current(v, claims, now) <==> ClaimsValid(claims, v, now)
  {
    hide Date, Dated, AudienceMatches, GoStrings;
    forall name, d ensures Dated(claims, name, d) <==> Date(claims, name) == Ok(Some(d)) {
      DatedIsDate(claims, name, d);
    }
    NoDate(claims, "nbf");
    AudienceSpelledOut(claims, v.expectedAudience);
    if ClaimsValid(claims, v, now) {
      assert Dated(claims, "exp", Date(claims, "exp").value.value);
      if Date(claims, "nbf").value.Some? {
        assert Dated(claims, "nbf", Date(claims, "nbf").value.value);
      }
    }
  }

  lemma PartsAreParsed(token: string, head: string, body: string, sig: string,
                       header: map<string, Any>, claims: map<string, Any>, octets: seq<byte>)
    requires Parts(token, head, body, sig, header, claims, octets)
    ensures ParseUnverified(token) == Some(Unverified(header, claims, sig, head + ['.'] + body))
  {
    hide SplitToken, ReadObject, Holds;
    ReadObjectExactly(head, header);
    ReadObjectExactly(body, claims);
    SplitJoined(token, head, body, sig);
  }

  lemma ParsedAreParts(token: string, octets: seq<byte>) returns (head: string, body: string)
    requires ParseUnverified(token).Some?
    requires Base64Url.Decode(ParseUnverified(token).value.sig) == Some(octets)
    ensures var t := ParseUnverified(token).value;
            Parts(token, head, body, t.sig, t.header, t.claims, octets) && t.input == head + ['.'] + body
  {
    hide SplitToken, ReadObject, Holds, Base64Url.Decode;
    var parts := SplitToken(token).value;
    var t := ParseUnverified(token).value;
    ReadObjectExactly(parts.0, t.header);
    ReadObjectExactly(parts.1, t.claims);
    SplitJoined(token, parts.0, parts.1, parts.2);
    head, body := parts.0, parts.1;
  }

  /** An accepted token carries all the evidence, and the claims returned are its own. */
  lemma AcceptanceSound(
    crypto: Crypto, v: View, jwks: seq<Jwk>, opts: seq<VerifierOption>, token: string, now: int)
    requires Inoffensive(jwks, |jwks|) && Describes(v, jwks, opts)
    requires Verified(crypto, v, token, now).Ok?
    ensures Vouched(crypto, v, jwks, token, now, Verified(crypto, v, token, now).value)
  {
    hide ParseUnverified, PublicKeyOf, Base64Url.Decode, ClaimsValid, Current, Parts, Checked;
    InoffensiveExactly(jwks);
    var t := ParseUnverified(token).value;
    var alg, octets, pub := CheckedPasses(crypto, v, t, now);
    var head, body := ParsedAreParts(token, octets);
    var k := NamedKeyOf(crypto, v, jwks, opts, t.header, pub);
    assert alg in v.allowedAlgs;
    var other :| other in jwks && other.alg == alg;
    assert SignedUnderListed(crypto, jwks, t.header, pub, t.input, octets);
    CurrentIsValid(v, t.claims, now);
    assert Parts(token, head, body, t.sig, t.header, t.claims, octets);
  }

  /** keyfunc finds a key of the set, named by the header: the empty kid is in no map. */
  lemma NamedKeyOf(
    crypto: Crypto, v: View, jwks: seq<Jwk>, opts: seq<VerifierOption>, header: map<string, Any>, pub: PublicKey)
    returns (k: Jwk)
    requires NamedKeys(jwks) && Describes(v, jwks, opts)
    requires KeyFor(crypto, v.keys, header) == Ok(pub)
    ensures NamedKey(crypto, jwks, header, k, pub) && k.alg in v.allowedAlgs
  {
    hide PublicKeyOf;
    var kid := match StringMember(header, "kid") case Some(s) => s case None => "";
    k := v.keys[kid];
    assert k in jwks;
  }

  lemma KeyForNamed(
    crypto: Crypto, v: View, jwks: seq<Jwk>, opts: seq<VerifierOption>, header: map<string, Any>,
    k: Jwk, pub: PublicKey)
    requires Describes(v, jwks, opts) && NamedKey(crypto, jwks, header, k, pub)
    ensures KeyFor(crypto, v.keys, header) == Ok(pub)
  {
    hide PublicKeyOf;
  }

  /** A token with all the evidence is accepted. */
  lemma AcceptanceComplete(
    crypto: Crypto, v: View, jwks: seq<Jwk>, opts: seq<VerifierOption>, token: string, now: int,
    claims: map<string, Any>)
    requires Inoffensive(jwks, |jwks|) && Describes(v, jwks, opts)
    requires Vouched(crypto, v, jwks, token, now, claims)
    ensures Verified(crypto, v, token, now) == Ok(claims)
  {
    hide ParseUnverified, PublicKeyOf, Base64Url.Decode, ClaimsValid, Current;
    hide Parts, NamedKey, KeyFor, Checked;
    var head, body, sig, header, octets, k, pub :|
      Parts(token, head, body, sig, header, claims, octets) && NamedKey(crypto, jwks, header, k, pub)
      && SignedUnderListed(crypto, jwks, header, pub, head + ['.'] + body, octets) && Current(v, claims, now);
    PartsAreParsed(token, head, body, sig, header, claims, octets);
    CurrentIsValid(v, claims, now);
    KeyForNamed(crypto, v, jwks, opts, header, k, pub);
    var input := head + ['.'] + body;
    var other :| other in jwks && Stands(header, "alg", GoString(other.alg))
                 && SameFamily(pub, other.alg) && crypto.verify(pub, other.alg, input, octets);
    SignatureSegment(token, head, body, sig, header, claims, octets);
    PassesIsChecked(crypto, v, Unverified(header, claims, sig, input), other.alg, octets, pub, now);
  }

  lemma SignatureSegment(token: string, head: string, body: string, sig: string,
                    header: map<string, Any>, claims: map<string, Any>, octets: seq<byte>)
    requires Parts(token, head, body, sig, header, claims, octets)
    ensures Base64Url.Decode(sig) == Some(octets)
  {
  }

  /** Verify accepts a token exactly when it carries all the evidence, and then returns its claims. */
  lemma AcceptanceExactly(
    crypto: Crypto, v: View, jwks: seq<Jwk>, opts: seq<VerifierOption>, token: string, now: int,
    claims: map<string, Any>)
    requires Inoffensive(jwks, |jwks|) && Describes(v, jwks, opts)
    ensures Verified(crypto, v, token, now) == Ok(claims) <==> Vouched(crypto, v, jwks, token, now, claims)
  {
    hide Verified, Vouched;
    if Verified(crypto, v, token, now) == Ok(claims) {
      AcceptanceSound(crypto, v, jwks, opts, token, now);
    } else if Vouched(crypto, v, jwks, token, now, claims) {
      AcceptanceComplete(crypto, v, jwks, opts, token, now, claims);
    }
  }

  // ----- refusal -----

  /** The signing methods the JWT library knows. */
  predicate KnownMethod(alg: string) {
    alg in {"RS256", "RS384", "RS512", "PS256", "PS384", "PS512", "ES256", "ES384", "ES512",
            "HS256", "HS384", "HS512", "EdDSA", "none"}
  }

  /** Why a token is refused: the first of these that is wrong, in this order. */
  lemma RefusalExactly(crypto: Crypto, v: View, token: string, now: int)
    ensures var r, parsed := Verified(crypto, v, token, now), ParseUnverified(token);
            if parsed.None? then r == Err(Malformed)
            else
              var t := parsed.value;
              var alg := if "alg" in t.header && t.header["alg"].GoString? then t.header["alg"].s else "";
              var kid := if "kid" in t.header && t.header["kid"].GoString? then t.header["kid"].s else "";
              if !KnownMethod(alg) then r == Err(MethodUnavailable)
              else if v.allowedAlgs != [] && alg !in v.allowedAlgs then r == Err(MethodNotAllowed)
              else if Base64Url.Decode(t.sig).None? then r == Err(Malformed)
              else if kid !in v.keys then r == Err(NoKeyForKid(kid))
              else if PublicKeyOf(crypto, v.keys[kid]).Err? then r == Err(UnusableKey(InvalidKey))
              else
                var pub := PublicKeyOf(crypto, v.keys[kid]).value;
                if !SameFamily(pub, alg) || !crypto.verify(pub, alg, t.input, Base64Url.Decode(t.sig).value) then
                  r == Err(BadSignature)
                else if !Current(v, t.claims, now) then r == Err(InvalidClaims)
                else r == Ok(t.claims)
  {
    hide ParseUnverified, Base64Url.Decode, PublicKeyOf, Current, ClaimsValid;
    if ParseUnverified(token).Some? {
      CurrentIsValid(v, ParseUnverified(token).value.claims, now);
    }
    forall k ensures PublicKeyOf(crypto, k).Err? ==> PublicKeyOf(crypto, k).error == InvalidKey {
      UnusableIsInvalid(crypto, k);
    }
  }

  lemma UnusableIsInvalid(crypto: Crypto, k: Jwk)
    ensures PublicKeyOf(crypto, k).Err? ==> PublicKeyOf(crypto, k).error == InvalidKey
  {
  }

  // ----- dependence on the key set -----

  /** Two verifiers that hold the same keys, algorithms and expectations decide alike. */
  lemma SameView(crypto: Crypto, v: View, w: View, token: string, now: int)
    requires v.keys == w.keys && v.expectedIssuer == w.expectedIssuer && v.expectedAudience == w.expectedAudience
    requires forall a :: a in v.allowedAlgs <==> a in w.allowedAlgs
    ensures Verified(crypto, v, token, now) == Verified(crypto, w, token, now)
  {
    hide ParseUnverified, StringMember, RegisteredMethod, Base64Url.Decode, SignatureValid, Date;
    if v.allowedAlgs != [] {
      assert v.allowedAlgs[0] in w.allowedAlgs;
    }
    if w.allowedAlgs != [] {
      assert w.allowedAlgs[0] in v.allowedAlgs;
    }
  }

  lemma SameKeysSameView(v: View, w: View, a: seq<Jwk>, b: seq<Jwk>, opts: seq<VerifierOption>)
    requires forall k :: k in a <==> k in b
    requires Describes(v, a, opts) && Describes(w, b, opts)
    ensures v.keys == w.keys && forall alg :: alg in v.allowedAlgs <==> alg in w.allowedAlgs
  {
    forall kid ensures kid in v.keys <==> kid in w.keys {
      if kid in v.keys {
        assert v.keys[kid] in b;
      }
      if kid in w.keys {
        assert w.keys[kid] in a;
      }
    }
    forall kid | kid in v.keys ensures v.keys[kid] == w.keys[kid] {
      assert v.keys[kid] in b;
    }
  }

  lemma InMultiset(a: seq<Jwk>, k: Jwk)
    ensures k in a <==> multiset(a)[k] > 0
  {
  }

  /** A value twice in a list stands at two places. */
  lemma TwoPlaces(a: seq<Jwk>, k: Jwk)
    requires multiset(a)[k] >= 2
    ensures exists i, j :: 0 <= i < j < |a| && a[i] == k && a[j] == k
  {
    InMultiset(a, k);
    var i :| 0 <= i < |a| && a[i] == k;
    assert a == a[..i] + [k] + a[i + 1..];
    assert multiset(a) == multiset(a[..i]) + multiset{k} + multiset(a[i + 1..]);
    if k in a[..i] {
      var j :| 0 <= j < i && a[..i][j] == k;
      assert a[j] == k && a[i] == k;
    } else {
      InMultiset(a[..i], k);
      InMultiset(a[i + 1..], k);
      var j :| 0 <= j < |a| - i - 1 && a[i + 1..][j] == k;
      assert a[i] == k && a[i + 1 + j] == k;
    }
  }

  lemma PlacesCount(a: seq<Jwk>, i: nat, j: nat)
    requires i < j < |a| && a[i] == a[j]
    ensures multiset(a)[a[i]] >= 2
  {
    assert a == a[..j] + a[j..];
    assert multiset(a) == multiset(a[..j]) + multiset(a[j..]);
    assert a[..j][i] == a[i] && a[j..][0] == a[i];
  }

  lemma PermutedInoffensive(a: seq<Jwk>, b: seq<Jwk>)
    requires multiset(a) == multiset(b) && Inoffensive(a, |a|)
    ensures Inoffensive(b, |b|)
  {
    InoffensiveExactly(a);
    InoffensiveExactly(b);
    forall k ensures k in a <==> k in b {
      InMultiset(a, k);
      InMultiset(b, k);
    }
    forall i, j | 0 <= i < j < |b| ensures b[i].kid != b[j].kid {
      if b[i].kid == b[j].kid {
        assert b[i] in a && b[j] in a;
        var p :| 0 <= p < |a| && a[p] == b[i];
        var q :| 0 <= q < |a| && a[q] == b[j];
        assert p == q;
        PlacesCount(b, i, j);
        TwoPlaces(a, b[i]);
      }
    }
  }

  /** Permuting a key set changes neither whether it is accepted nor any verification outcome. */
  lemma OrderIndependence(
    crypto: Crypto, a: seq<Jwk>, b: seq<Jwk>, opts: seq<VerifierOption>, v: View, w: View, token: string, now: int)
    requires multiset(a) == multiset(b)
    requires Describes(v, a, opts) && Describes(w, b, opts)
    ensures Inoffensive(a, |a|) <==> Inoffensive(b, |b|)
    ensures Verified(crypto, v, token, now) == Verified(crypto, w, token, now)
  {
    if Inoffensive(a, |a|) {
      PermutedInoffensive(a, b);
    }
    if Inoffensive(b, |b|) {
      PermutedInoffensive(b, a);
    }
    forall k ensures k in a <==> k in b {
      InMultiset(a, k);
      InMultiset(b, k);
    }
    SameKeysSameView(v, w, a, b, opts);
    SameView(crypto, v, w, token, now);
  }

  /** Adding a key under a new kid, anywhere in the list, keeps the set acceptable. */
  lemma ExtendedInoffensive(a: seq<Jwk>, k: Jwk, b: seq<Jwk>)
    requires Inoffensive(a + b, |a + b|)
    requires k.kid != "" && k.alg != "" && forall l :: l in a + b ==> l.kid != k.kid
    ensures Inoffensive(a + [k] + b, |a + [k] + b|)
  {
    var old', new' := a + b, a + [k] + b;
    InoffensiveExactly(old');
    InoffensiveExactly(new');
    assert forall l :: l in new' <==> l == k || l in old';
    forall i, j | 0 <= i < j < |new'| ensures new'[i].kid != new'[j].kid {
      if i != |a| {
        var p := if i < |a| then i else i - 1;
        assert new'[i] == old'[p] && old'[p] in old';
        if j != |a| {
          var q := if j < |a| then j else j - 1;
          assert new'[j] == old'[q];
        }
      } else {
        assert new'[j] == old'[j - 1] && old'[j - 1] in old';
      }
    }
  }

  /** Acceptance is monotone: a key added under a new kid never turns an accepted token away or alters its claims. */
  lemma AcceptanceMonotone(
    crypto: Crypto, a: seq<Jwk>, k: Jwk, b: seq<Jwk>, opts: seq<VerifierOption>, v: View, w: View,
    token: string, now: int)
    requires Inoffensive(a + b, |a + b|) && Describes(v, a + b, opts)
    requires k.kid != "" && k.alg != "" && forall l :: l in a + b ==> l.kid != k.kid
    requires Describes(w, a + [k] + b, opts)
    requires Verified(crypto, v, token, now).Ok?
    ensures Inoffensive(a + [k] + b, |a + [k] + b|)
    ensures Verified(crypto, w, token, now) == Verified(crypto, v, token, now)
  {
    hide ParseUnverified, ClaimsValid, SignatureValid, RegisteredMethod, Checked;
    hide NamedKey, KeyFor, Base64Url.Decode, StringMember, Inoffensive;
    InoffensiveExactly(a + b);
    ExtendedInoffensive(a, k, b);
    var old', new' := a + b, a + [k] + b;
    assert forall l :: l in old' ==> l in new';
    var t := ParseUnverified(token).value;
    var alg, octets, pub := CheckedPasses(crypto, v, t, now);
    var l := NamedKeyOf(crypto, v, old', opts, t.header, pub);
    NamedKeyGrows(crypto, old', new', t.header, l, pub);
    KeyForNamed(crypto, w, new', opts, t.header, l, pub);
    assert alg in v.allowedAlgs;
    assert alg in w.allowedAlgs;
    SameClaimsVerdict(t.claims, v, w, now);
    PassesIsChecked(crypto, w, t, alg, octets, pub, now);
  }

  lemma NamedKeyGrows(crypto: Crypto, a: seq<Jwk>, b: seq<Jwk>, header: map<string, Any>, k: Jwk, pub: PublicKey)
    requires NamedKey(crypto, a, header, k, pub) && forall l :: l in a ==> l in b
    ensures NamedKey(crypto, b, header, k, pub)
  {
  }

  lemma SameClaimsVerdict(claims: map<string, Any>, v: View, w: View, now: int)
    requires v.expectedIssuer == w.expectedIssuer && v.expectedAudience == w.expectedAudience
    ensures ClaimsValid(claims, v, now) <==> ClaimsValid(claims, w, now)
  {
  }
}
