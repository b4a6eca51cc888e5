/** The default kid: the RFC 7638 thumbprint, its hash input, and what that input determines. */
module Thumbprints {
  import opened BigEndian
  import opened Keys
  import opened Json
  import opened Jwk
  import opened SortedObject
  import Base64Url
  import Utf8

  lemma KidOf(crypto: Crypto, pub: PublicKey, alg: Algorithm, kid: string)
    requires PublicJwk(crypto, pub, alg, kid).Ok?
    ensures PublicJwk(crypto, pub, alg, kid).value.kid == if kid == "" then DefaultKid(crypto, pub) else kid
    ensures PublicJwk(crypto, pub, alg, kid).value.alg == alg
  {
    hide Base64Url.Encode, ToBytes, FixedBytes, Thumbprint, RsaCanonical, EcCanonical, Pow256;
    if pub.EcKey? {
      var size := CoordinateSize(pub.curve);
      var xs, ys := FixedBytes(pub.x, size), FixedBytes(pub.y, size);
      var raw := [4] + xs + ys;
      assert raw[1..1 + size] == xs && raw[1 + size..1 + 2 * size] == ys;
    }
  }

  /** A 32-octet digest has a 43-letter spelling, so no published key is without a kid. */
  lemma KidNonEmpty(crypto: Crypto, pub: PublicKey, alg: Algorithm, kid: string)
    requires PublicJwk(crypto, pub, alg, kid).Ok?
    requires |crypto.sha256(Utf8.Encode(HashInput(pub)))| == 32
    ensures PublicJwk(crypto, pub, alg, kid).value.kid != ""
    ensures kid == "" ==> |PublicJwk(crypto, pub, alg, kid).value.kid| == 43
  {
    KidOf(crypto, pub, alg, kid);
    Base64Url.EncodeInAlphabet(crypto.sha256(Utf8.Encode(HashInput(pub))));
  }

  /** The hash input of a key's thumbprint. */
  function HashInput(pub: PublicKey): string {
    match pub
    case RsaKey(n, e) =>
      RsaCanonical(Base64Url.Encode(ToBytes(n)), Base64Url.Encode(ToBytes(Abs(e))))
    case EcKey(curve, x, y) =>
      var size := CoordinateSize(curve);
      EcCanonical(CurveName(curve), Base64Url.Encode(FixedBytes(x, size)), Base64Url.Encode(FixedBytes(y, size)))
  }

  function CurveName(c: Curve): string {
    match c
    case P224 => "P-224"
    case P256 => "P-256"
    case P384 => "P-384"
    case P521 => "P-521"
  }

  function DefaultKid(crypto: Crypto, pub: PublicKey): string { Thumbprint(crypto, HashInput(pub)) }

  predicate NoQuote(s: string) { forall i :: 0 <= i < |s| ==> s[i] != '\"' }

  lemma {:induction false} QuotePlain(s: string)
    requires Base64Url.InAlphabet(s)
    ensures QuoteChars(s) == s && NoQuote(s)
  {
    if s != [] {
      assert Base64Url.Index(s[0]).Some?;
      assert forall i :: 0 <= i < |s[1..]| ==> s[1..][i] == s[i + 1];
      QuotePlain(s[1..]);
      assert s == [s[0]] + s[1..];
    }
  }

  /** Text up to the first quote determines the text after it. */
  lemma SplitAtQuote(a: string, s: string, b: string, t: string)
    requires NoQuote(a) && NoQuote(b)
    requires (['\"'] + a + ['\"']) + s == (['\"'] + b + ['\"']) + t
    ensures a == b && s == t
  {
    var l, r := (['\"'] + a + ['\"']) + s, (['\"'] + b + ['\"']) + t;
    assert l[1 + |a|] == '\"' && forall k :: 1 <= k <= |a| ==> l[k] == a[k - 1];
    assert r[1 + |b|] == '\"' && forall k :: 1 <= k <= |b| ==> r[k] == b[k - 1];
    assert |a| == |b|;
    assert a == l[1..1 + |a|] == r[1..1 + |a|] == b;
    assert s == l[2 + |a|..] == r[2 + |b|..] == t;
  }

  lemma DropPrefix(p: string, s: string, t: string)
    requires p + s == p + t
    ensures s == t
  {
    assert s == (p + s)[|p|..] == (p + t)[|p|..] == t;
  }

  lemma QuotedInjective(a: string, s: string, b: string, t: string)
    requires Base64Url.InAlphabet(a) && Base64Url.InAlphabet(b)
    requires Quote(a) + s == Quote(b) + t
    ensures a == b && s == t
  {
    hide QuoteChars;
    QuotePlain(a);
    QuotePlain(b);
    SplitAtQuote(a, s, b, t);
  }

  lemma RsaCanonicalInjective(n: string, e: string, n': string, e': string)
    requires Base64Url.InAlphabet(n) && Base64Url.InAlphabet(e) && Base64Url.InAlphabet(n') && Base64Url.InAlphabet(e')
    requires RsaCanonical(n, e) == RsaCanonical(n', e')
    ensures n == n' && e == e'
  {
    hide Quote, Base64Url.InAlphabet;
    var s, s' := ",\"kty\":\"RSA\",\"n\":" + (Quote(n) + "}"), ",\"kty\":\"RSA\",\"n\":" + (Quote(n') + "}");
    DropPrefix("{\"e\":", Quote(e) + s, Quote(e') + s');
    QuotedInjective(e, s, e', s');
    DropPrefix(",\"kty\":\"RSA\",\"n\":", Quote(n) + "}", Quote(n') + "}");
    QuotedInjective(n, "}", n', "}");
  }

  lemma EcCanonicalInjective(crv: string, x: string, y: string, crv': string, x': string, y': string)
    requires Base64Url.InAlphabet(crv) && Base64Url.InAlphabet(x) && Base64Url.InAlphabet(y)
    requires Base64Url.InAlphabet(crv') && Base64Url.InAlphabet(x') && Base64Url.InAlphabet(y')
    requires EcCanonical(crv, x, y) == EcCanonical(crv', x', y')
    ensures crv == crv' && x == x' && y == y'
  {
    hide Quote, Base64Url.InAlphabet;
    var k, yk := ",\"kty\":\"EC\",\"x\":", ",\"y\":";
    var t, t' := yk + (Quote(y) + "}"), yk + (Quote(y') + "}");
    var s, s' := k + (Quote(x) + t), k + (Quote(x') + t');
    DropPrefix("{\"crv\":", Quote(crv) + s, Quote(crv') + s');
    QuotedInjective(crv, s, crv', s');
    DropPrefix(k, Quote(x) + t, Quote(x') + t');
    QuotedInjective(x, t, x', t');
    DropPrefix(yk, Quote(y) + "}", Quote(y') + "}");
    QuotedInjective(y, "}", y', "}");
  }

  /** A key whose JWK determines it: no negative exponent, no coordinate wider than its slot. */
  predicate Publishable(pub: PublicKey) {
    match pub
    case RsaKey(_, e) => e >= 0
    case EcKey(curve, x, y) => x < Pow256(CoordinateSize(curve)) && y < Pow256(CoordinateSize(curve))
  }

  /** Different keys, of one family or of two, hash different texts. */
  lemma HashInputInjective(a: PublicKey, b: PublicKey)
    requires Publishable(a) && Publishable(b)
    ensures HashInput(a) == HashInput(b) <==> a == b
  {
    if HashInput(a) == HashInput(b) {
      match (a, b) {
        case (RsaKey(n, e), RsaKey(n', e')) => RsaInputInjective(n, e, n', e');
        case (EcKey(c, x, y), EcKey(c', x', y')) => EcInputInjective(c, x, y, c', x', y');
        case (RsaKey(_, _), EcKey(_, _, _)) => FamiliesDiffer(a, b);
        case (EcKey(_, _, _), RsaKey(_, _)) => FamiliesDiffer(b, a);
      }
    }
  }

  lemma FamiliesDiffer(a: PublicKey, b: PublicKey)
    requires a.RsaKey? && b.EcKey?
    ensures HashInput(a) != HashInput(b)
  {
    hide Quote, Base64Url.Encode, ToBytes, FixedBytes;
    assert HashInput(a)[2] == 'e';
    assert HashInput(b)[2] == 'c';
  }

  lemma RsaInputInjective(n: nat, e: nat, n': nat, e': nat)
    requires HashInput(RsaKey(n, e)) == HashInput(RsaKey(n', e'))
    ensures n == n' && e == e'
  {
    hide Base64Url.Encode, Base64Url.InAlphabet, ToBytes, FromBytes, RsaCanonical;
    Base64Url.EncodeInAlphabet(ToBytes(n));
    Base64Url.EncodeInAlphabet(ToBytes(e));
    Base64Url.EncodeInAlphabet(ToBytes(n'));
    Base64Url.EncodeInAlphabet(ToBytes(e'));
    RsaCanonicalInjective(
      Base64Url.Encode(ToBytes(n)), Base64Url.Encode(ToBytes(e)),
      Base64Url.Encode(ToBytes(n')), Base64Url.Encode(ToBytes(e')));
    Base64Url.EncodeInjective(ToBytes(n), ToBytes(n'));
    Base64Url.EncodeInjective(ToBytes(e), ToBytes(e'));
    FromToBytes(n);
    FromToBytes(n');
    FromToBytes(e);
    FromToBytes(e');
  }

  lemma EcInputInjective(c: Curve, x: nat, y: nat, c': Curve, x': nat, y': nat)
    requires Publishable(EcKey(c, x, y)) && Publishable(EcKey(c', x', y'))
    requires HashInput(EcKey(c, x, y)) == HashInput(EcKey(c', x', y'))
    ensures c == c' && x == x' && y == y'
  {
    hide Base64Url.Encode, Base64Url.InAlphabet, FixedBytes, FromBytes, EcCanonical, Pow256;
    var xs, ys := FixedBytes(x, CoordinateSize(c)), FixedBytes(y, CoordinateSize(c));
    var xs', ys' := FixedBytes(x', CoordinateSize(c')), FixedBytes(y', CoordinateSize(c'));
    CurveNamePlain(c);
    CurveNamePlain(c');
    Base64Url.EncodeInAlphabet(xs);
    Base64Url.EncodeInAlphabet(ys);
    Base64Url.EncodeInAlphabet(xs');
    Base64Url.EncodeInAlphabet(ys');
    EcCanonicalInjective(
      CurveName(c), Base64Url.Encode(xs), Base64Url.Encode(ys),
      CurveName(c'), Base64Url.Encode(xs'), Base64Url.Encode(ys'));
    Base64Url.EncodeInjective(xs, xs');
    Base64Url.EncodeInjective(ys, ys');
    FromFixedBytes(x, CoordinateSize(c));
    FromFixedBytes(y, CoordinateSize(c));
    FromFixedBytes(x', CoordinateSize(c));
    FromFixedBytes(y', CoordinateSize(c));
  }

  lemma CurveNamePlain(c: Curve)
    ensures Base64Url.InAlphabet(CurveName(c))
  {
  }

  /** Two keys share their default kid exactly when they are one key or the hash collides on their inputs. */
  lemma DefaultKidIdentifies(crypto: Crypto, a: PublicKey, b: PublicKey)
    requires Publishable(a) && Publishable(b)
    ensures DefaultKid(crypto, a) == DefaultKid(crypto, b)
       <==> a == b || (HashInput(a) != HashInput(b)
                       && crypto.sha256(Utf8.Encode(HashInput(a))) == crypto.sha256(Utf8.Encode(HashInput(b))))
  {
    hide HashInput;
    HashInputInjective(a, b);
    if DefaultKid(crypto, a) == DefaultKid(crypto, b) {
      Base64Url.EncodeInjective(
        crypto.sha256(Utf8.Encode(HashInput(a))), crypto.sha256(Utf8.Encode(HashInput(b))));
    }
  }

  // ----- the hash input is the canonical JSON of the key -----

  lemma {:induction false} PrintPlain(s: string)
    requires Base64Url.InAlphabet(s)
    ensures PrintChars(s) == s
  {
    if s != [] {
      assert Base64Url.Index(s[0]).Some?;
      assert forall i :: 0 <= i < |s[1..]| ==> s[1..][i] == s[i + 1];
      PrintPlain(s[1..]);
      assert s == [s[0]] + s[1..];
    }
  }

  lemma QuoteIsPrint(s: string)
    requires Base64Url.InAlphabet(s)
    ensures Quote(s) == PrintString(s)
  {
    QuotePlain(s);
    PrintPlain(s);
  }

  /** The required members of a published key (section 3.2 of RFC 7638). */
  function RequiredMembers(k: Jwk): map<string, Value> {
    if k.kty == "RSA" then map["e" := Str(k.e), "kty" := Str(k.kty), "n" := Str(k.n)]
    else map["crv" := Str(k.crv), "kty" := Str(k.kty), "x" := Str(k.x), "y" := Str(k.y)]
  }

  lemma ToMapAppend(ms: seq<Member>, m: Member)
    ensures ToMap(ms + [m]) == ToMap(ms)[m.key := m.value]
  {
    assert (ms + [m])[..|ms|] == ms;
  }

  lemma PrintCons(m: Member, rest: seq<Member>)
    ensures PrintMembers([m] + rest) == PrintMember(m) + if rest == [] then "" else "," + PrintMembers(rest)
  {
    assert ([m] + rest)[1..] == rest;
  }

  lemma PrintTextMember(key: string, head: string, s: string)
    requires Base64Url.InAlphabet(key) && Base64Url.InAlphabet(s) && head == "\"" + key + "\":"
    ensures PrintMember(Member(key, Str(s))) == head + Quote(s)
  {
    QuoteIsPrint(s);
    PrintPlain(key);
  }

  function RsaMembers(k: Jwk): seq<Member> {
    [Member("e", Str(k.e))] + ([Member("kty", Str("RSA"))] + ([Member("n", Str(k.n))] + []))
  }

  lemma RsaMembersMap(k: Jwk)
    requires k.kty == "RSA"
    ensures ToMap(RsaMembers(k)) == RequiredMembers(k) && Ascending(KeysOf(RsaMembers(k)))
  {
    hide Less, ToMap;
    var e, t, n := Member("e", Str(k.e)), Member("kty", Str("RSA")), Member("n", Str(k.n));
    assert RsaMembers(k) == [] + [e] + [t] + [n];
    ToMapAppend([], e);
    ToMapAppend([] + [e], t);
    ToMapAppend([] + [e] + [t], n);
    assert ToMap([]) == map[] by { EmptyMap(); }
    assert KeysOf(RsaMembers(k)) == ["e", "kty", "n"];
    RsaNamesAscend();
  }

  lemma EmptyMap()
    ensures ToMap([]) == map[]
  {
  }

  lemma RsaMembersText(k: Jwk)
    requires Base64Url.InAlphabet(k.n) && Base64Url.InAlphabet(k.e)
    ensures Print(Obj(RsaMembers(k))) == RsaCanonical(k.n, k.e)
  {
    hide Quote, PrintMember, PrintMembers, Base64Url.InAlphabet;
    var e, t, n := Member("e", Str(k.e)), Member("kty", Str("RSA")), Member("n", Str(k.n));
    PrintCons(e, [t] + ([n] + []));
    PrintCons(t, [n] + []);
    PrintCons(n, []);
    PrintTextMember("e", "\"e\":", k.e) by { PlainNames(); }
    PrintTextMember("kty", "\"kty\":", "RSA") by { PlainNames(); }
    PrintTextMember("n", "\"n\":", k.n) by { PlainNames(); }
    QuotedNames();
    RsaConcat(Quote(k.e), Quote(k.n));
  }

  lemma PlainNames()
    ensures Base64Url.InAlphabet("e") && Base64Url.InAlphabet("kty") && Base64Url.InAlphabet("n")
    ensures Base64Url.InAlphabet("crv") && Base64Url.InAlphabet("x") && Base64Url.InAlphabet("y")
    ensures Base64Url.InAlphabet("RSA") && Base64Url.InAlphabet("EC")
  {
  }

  lemma QuotedNames()
    ensures Quote("RSA") == "\"RSA\"" && Quote("EC") == "\"EC\""
  {
    PlainNames();
    QuotePlain("RSA");
    QuotePlain("EC");
  }

  lemma Concat3(a: string, b: string, c: string)
    ensures (a + b) + c == a + (b + c)
  {
  }

  /** The printed object and the format string agree, piece by piece. */
  lemma RsaConcat(e: string, n: string)
    ensures "{" + (("\"e\":" + e) + ("," + (("\"kty\":" + "\"RSA\"") + ("," + ("\"n\":" + n))))) + "}"
         == "{\"e\":" + (e + (",\"kty\":\"RSA\",\"n\":" + (n + "}")))
  {
    var mid := ",\"kty\":\"RSA\",\"n\":";
    assert "," + (("\"kty\":" + "\"RSA\"") + ("," + ("\"n\":" + n))) == mid + n;
    Concat3("\"e\":", e, mid + n);
    assert "{" + ("\"e\":" + (e + (mid + n))) == "{\"e\":" + (e + (mid + n));
    Concat3("{\"e\":", e + (mid + n), "}");
    Concat3(e, mid + n, "}");
    Concat3(mid, n, "}");
  }

  lemma EcConcat(c: string, x: string, y: string)
    ensures "{" + (("\"crv\":" + c) + ("," + (("\"kty\":" + "\"EC\"")
            + ("," + (("\"x\":" + x) + ("," + ("\"y\":" + y))))))) + "}"
         == "{\"crv\":" + (c + (",\"kty\":\"EC\",\"x\":" + (x + (",\"y\":" + (y + "}")))))
  {
    var kx, ky := ",\"kty\":\"EC\",\"x\":", ",\"y\":";
    assert "," + ("\"y\":" + y) == ky + y;
    Concat3("\"x\":", x, ky + y);
    assert "," + (("\"kty\":" + "\"EC\"") + ("," + ("\"x\":" + (x + (ky + y))))) == kx + (x + (ky + y));
    var tail := kx + (x + (ky + y));
    Concat3("\"crv\":", c, tail);
    assert "{" + ("\"crv\":" + (c + tail)) == "{\"crv\":" + (c + tail);
    Concat3("{\"crv\":", c + tail, "}");
    Concat3(c, tail, "}");
    Concat3(kx, x + (ky + y), "}");
    Concat3(x, ky + y, "}");
    Concat3(ky, y, "}");
  }

  /** What rsaThumbprint hashes is the compact, key-sorted JSON of the required members. */
  lemma RsaInputIsCanonicalJson(k: Jwk)
    requires k.kty == "RSA" && Base64Url.InAlphabet(k.n) && Base64Url.InAlphabet(k.e)
    ensures RsaCanonical(k.n, k.e) == PrintMap(RequiredMembers(k))
  {
    hide *;
    RsaMembersMap(k);
    PrintMapCanonical(RsaMembers(k), RequiredMembers(k));
    RsaMembersText(k);
  }

  lemma RsaNamesAscend()
    ensures Ascending(["e", "kty", "n"])
  {
    assert Less("e", "kty") && Less("kty", "n") && Less("e", "n");
  }

  function EcMembers(k: Jwk): seq<Member> {
    [Member("crv", Str(k.crv))] + ([Member("kty", Str("EC"))]
    + ([Member("x", Str(k.x))] + ([Member("y", Str(k.y))] + [])))
  }

  lemma EcMembersMap(k: Jwk)
    requires k.kty == "EC"
    ensures ToMap(EcMembers(k)) == RequiredMembers(k) && Ascending(KeysOf(EcMembers(k)))
  {
    hide Less, ToMap;
    var c, t, x, y := Member("crv", Str(k.crv)), Member("kty", Str("EC")), Member("x", Str(k.x)), Member("y", Str(k.y));
    assert EcMembers(k) == [] + [c] + [t] + [x] + [y];
    ToMapAppend([], c);
    ToMapAppend([] + [c], t);
    ToMapAppend([] + [c] + [t], x);
    ToMapAppend([] + [c] + [t] + [x], y);
    assert ToMap([]) == map[] by { EmptyMap(); }
    assert KeysOf(EcMembers(k)) == ["crv", "kty", "x", "y"];
    EcNamesAscend();
  }

  lemma EcMembersJoined(k: Jwk)
    ensures PrintMembers(EcMembers(k))
         == PrintMember(Member("crv", Str(k.crv))) + ("," + (PrintMember(Member("kty", Str("EC")))
            + ("," + (PrintMember(Member("x", Str(k.x))) + ("," + PrintMember(Member("y", Str(k.y))))))))
  {
    hide PrintMember, PrintMembers;
    var c, t, x, y := Member("crv", Str(k.crv)), Member("kty", Str("EC")), Member("x", Str(k.x)), Member("y", Str(k.y));
    PrintCons(c, [t] + ([x] + ([y] + [])));
    PrintCons(t, [x] + ([y] + []));
    PrintCons(x, [y] + []);
    PrintCons(y, []);
  }

  lemma EcMembersText(k: Jwk)
    requires Base64Url.InAlphabet(k.crv) && Base64Url.InAlphabet(k.x) && Base64Url.InAlphabet(k.y)
    ensures Print(Obj(EcMembers(k))) == EcCanonical(k.crv, k.x, k.y)
  {
    hide Quote, PrintMember, PrintMembers, Base64Url.InAlphabet, EcMembers;
    EcMembersJoined(k);
    PrintTextMember("crv", "\"crv\":", k.crv) by { PlainNames(); }
    PrintTextMember("kty", "\"kty\":", "EC") by { PlainNames(); }
    PrintTextMember("x", "\"x\":", k.x) by { PlainNames(); }
    PrintTextMember("y", "\"y\":", k.y) by { PlainNames(); }
    QuotedNames();
    EcConcat(Quote(k.crv), Quote(k.x), Quote(k.y));
  }

  /** What ecThumbprint hashes, likewise. */
  lemma EcInputIsCanonicalJson(k: Jwk)
    requires k.kty == "EC" && Base64Url.InAlphabet(k.crv) && Base64Url.InAlphabet(k.x) && Base64Url.InAlphabet(k.y)
    ensures EcCanonical(k.crv, k.x, k.y) == PrintMap(RequiredMembers(k))
  {
    hide *;
    EcMembersMap(k);
    PrintMapCanonical(EcMembers(k), RequiredMembers(k));
    EcMembersText(k);
  }

  lemma EcNamesAscend()
    ensures Ascending(["crv", "kty", "x", "y"])
  {
    assert Less("crv", "kty") && Less("kty", "x") && Less("x", "y");
    assert Less("crv", "x") && Less("crv", "y") && Less("kty", "y");
  }

  /** The default kid of a published key hashes the canonical JSON of its JWK's required members. */
  lemma ThumbprintOfJwk(crypto: Crypto, pub: PublicKey, alg: Algorithm)
    requires PublicJwk(crypto, pub, alg, "").Ok?
    ensures var k := PublicJwk(crypto, pub, alg, "").value;
            k.kid == Base64Url.Encode(crypto.sha256(Utf8.Encode(PrintMap(RequiredMembers(k)))))
  {
    hide RsaCanonical, EcCanonical, PrintMap, RequiredMembers;
    hide Base64Url.Encode, Base64Url.InAlphabet, ToBytes, FixedBytes, Pow256;
    var k := PublicJwk(crypto, pub, alg, "").value;
    match pub {
      case RsaKey(n, e) =>
        Base64Url.EncodeInAlphabet(ToBytes(n));
        Base64Url.EncodeInAlphabet(ToBytes(Abs(e)));
        RsaInputIsCanonicalJson(k);
      case EcKey(curve, x, y) =>
        var size := CoordinateSize(curve);
        var raw := EcBytes(crypto, curve, x, y).value;
        Base64Url.EncodeInAlphabet(raw[1..1 + size]);
        Base64Url.EncodeInAlphabet(raw[1 + size..1 + 2 * size]);
        CurveNamePlain(curve);
        EcInputIsCanonicalJson(k);
    }
  }
}
