/** The published JWKS document: what JWKS.MarshalJSON prints, and that nothing of the set is lost in it. */
module JwksDocument {
  import opened Common
  import opened Json
  import opened JsonParser
  import opened JsonRoundTrip
  import opened Jwk
  import opened Fields

  /** A Go slice of JWKs: nil or a list. */
  datatype Keys = Nil | List(keys: seq<Jwk>)

  function JwkFields(k: Jwk): seq<Field> {
    [Field("kty", Some(Str(k.kty))), Text("use", k.use), Text("alg", k.alg), Text("kid", k.kid),
     Text("n", k.n), Text("e", k.e), Text("crv", k.crv), Text("x", k.x), Text("y", k.y)]
  }

  function JwkItems(keys: seq<Jwk>): (items: seq<Value>)
    ensures |items| == |keys|
  {
    seq(|keys|, i requires 0 <= i < |keys| => Obj(Present(JwkFields(keys[i]))))
  }

  /** JWKS.MarshalJSON: a nil slice prints as an empty array. */
  function Marshal(ks: Keys): string {
    var keys := if ks.Nil? then [] else ks.keys;
    Print(Obj([Member("keys", Arr(JwkItems(keys)))]))
  }

  // ----- reading the document -----

  /** A string field of the target struct, empty when the member is absent. */
  function StringField(m: map<string, Value>, name: string): Option<string> {
    if name !in m then Some("")
    else if m[name].Str? then Some(m[name].s)
    else None
  }

  function ReadJwk(v: Value): Option<Jwk> {
    if !v.Obj? then None
    else
      var m := ToMap(v.members);
      var kty :- StringField(m, "kty");
      var use :- StringField(m, "use");
      var alg :- StringField(m, "alg");
      var kid :- StringField(m, "kid");
      var n :- StringField(m, "n");
      var e :- StringField(m, "e");
      var crv :- StringField(m, "crv");
      var x :- StringField(m, "x");
      var y :- StringField(m, "y");
      Some(Jwk(kty, use, alg, kid, n, e, crv, x, y))
  }

  function ReadItems(items: seq<Value>): Option<seq<Jwk>> {
    if items == [] then Some([])
    else
      var k :- ReadJwk(items[0]);
      var rest :- ReadItems(items[1..]);
      Some([k] + rest)
  }

  /** json.Unmarshal into a JWKS whose keys member must be present and an array. */
  function Unmarshal(text: string): Option<seq<Jwk>> {
    var m :- UnmarshalMap(text);
    if "keys" in m && m["keys"].Arr? then ReadItems(m["keys"].items) else None
  }

  // ----- nothing is lost -----

  lemma JwkFieldNames(k: Jwk)
    ensures DistinctNames(JwkFields(k))
  {
  }

  lemma ReadJwkFields(k: Jwk)
    ensures ReadJwk(Obj(Present(JwkFields(k)))) == Some(k)
  {
    hide Present, ToMap, JwkFields, StringField;
    var f := JwkFields(k);
    JwkFieldNames(k);
    JwkFieldTexts(k);
    FieldReadsBack(f, 0, "kty", k.kty);
    FieldReadsBack(f, 1, "use", k.use);
    FieldReadsBack(f, 2, "alg", k.alg);
    FieldReadsBack(f, 3, "kid", k.kid);
    FieldReadsBack(f, 4, "n", k.n);
    FieldReadsBack(f, 5, "e", k.e);
    FieldReadsBack(f, 6, "crv", k.crv);
    FieldReadsBack(f, 7, "x", k.x);
    FieldReadsBack(f, 8, "y", k.y);
  }

  /** A field that holds a text, which is omitted at most when the text is empty. */
  predicate HoldsText(f: Field, name: string, s: string) {
    f.name == name && (f.value == Some(Str(s)) || (f.value == None && s == ""))
  }

  lemma JwkFieldTexts(k: Jwk)
    ensures var f := JwkFields(k);
            && |f| == 9
            && HoldsText(f[0], "kty", k.kty) && HoldsText(f[1], "use", k.use) && HoldsText(f[2], "alg", k.alg)
            && HoldsText(f[3], "kid", k.kid) && HoldsText(f[4], "n", k.n) && HoldsText(f[5], "e", k.e)
            && HoldsText(f[6], "crv", k.crv) && HoldsText(f[7], "x", k.x) && HoldsText(f[8], "y", k.y)
  {
  }

  /** One text field, present or omitted, reads back as its text. */
  lemma FieldReadsBack(fields: seq<Field>, i: nat, name: string, s: string)
    requires DistinctNames(fields) && i < |fields| && HoldsText(fields[i], name, s)
    ensures StringField(ToMap(Present(fields)), name) == Some(s)
  {
    hide Present, ToMap, DistinctNames;
    PresentReadsBack(fields);
    assert Lookup(ToMap(Present(fields)), fields[i].name) == fields[i].value;
  }

  lemma {:induction false} ReadJwkItems(keys: seq<Jwk>)
    ensures ReadItems(JwkItems(keys)) == Some(keys)
  {
    hide ReadJwk, JwkFields, Present;
    if keys != [] {
      ReadJwkFields(keys[0]);
      assert JwkItems(keys)[1..] == JwkItems(keys[1..]);
      ReadJwkItems(keys[1..]);
      assert keys == [keys[0]] + keys[1..];
    }
  }

  // ----- which members -----

  /** The members of a JWK in the order they are printed (section 4 of RFC 7517, sections 6.2 and 6.3 of RFC 7518). */
  const JWK_ORDER: seq<string> := ["kty", "use", "alg", "kid", "n", "e", "crv", "x", "y"]

  function JwkText(k: Jwk, name: string): string {
    if name == "kty" then k.kty
    else if name == "use" then k.use
    else if name == "alg" then k.alg
    else if name == "kid" then k.kid
    else if name == "n" then k.n
    else if name == "e" then k.e
    else if name == "crv" then k.crv
    else if name == "x" then k.x
    else if name == "y" then k.y
    else ""
  }

  lemma JwkFieldAt(k: Jwk, i: nat)
    requires i < 9
    ensures |JwkFields(k)| == 9
    ensures var f := JwkFields(k)[i];
            && f.name == JWK_ORDER[i]
            && f.value == if i == 0 || JwkText(k, f.name) != "" then Some(Str(JwkText(k, f.name))) else None
  {
  }

  /** A printed JWK has kty and the other members that are not empty, and nothing else. */
  lemma JwkMembersExactly(k: Jwk, name: string)
    ensures Lookup(ToMap(Present(JwkFields(k))), name)
         == if name == "kty" || JwkText(k, name) != "" then Some(Str(JwkText(k, name))) else None
  {
    hide Present, ToMap, JwkFields;
    var f := JwkFields(k);
    JwkFieldNames(k);
    JwkFieldAt(k, 0);
    PresentReadsBack(f);
    forall i | 0 <= i < 9
      ensures f[i].name == JWK_ORDER[i] && Lookup(ToMap(Present(f)), f[i].name) == f[i].value
    {
      JwkFieldAt(k, i);
    }
    if name in JWK_ORDER {
      var i: nat :| i < 9 && JWK_ORDER[i] == name;
      JwkFieldAt(k, i);
    } else {
      assert JwkText(k, name) == "";
      JwkFieldAt(k, 0);
    }
  }

  /** Its members stand in the order of the struct. */
  lemma JwkMembersOrdered(k: Jwk) returns (at: seq<nat>)
    ensures var ms := Present(JwkFields(k));
            && |at| == |ms| && (forall i :: 0 <= i < |at| ==> at[i] < 9 && ms[i].key == JWK_ORDER[at[i]])
            && (forall i, j :: 0 <= i < j < |at| ==> at[i] < at[j])
  {
    hide Present, JwkFields;
    JwkFieldAt(k, 0);
    at := PresentOrdered(JwkFields(k));
    forall i | 0 <= i < |at| ensures JwkFields(k)[at[i]].name == JWK_ORDER[at[i]] {
      JwkFieldAt(k, at[i]);
    }
  }

  /** The text of the published document holds, under keys, one object per JWK with exactly those members. */
  lemma DocumentExactly(ks: Keys)
    ensures var keys := if ks.Nil? then [] else ks.keys;
            exists items: seq<seq<Member>> ::
              && UnmarshalMap(Marshal(ks)) == Some(map["keys" := Arr(Objects(items))])
              && |items| == |keys|
              && forall i, name :: 0 <= i < |items| ==>
                   Lookup(ToMap(items[i]), name)
                   == if name == "kty" || JwkText(keys[i], name) != "" then Some(Str(JwkText(keys[i], name))) else None
  {
    hide UnmarshalMap, JwkFields, Present, ToMap, JwkText;
    var keys := if ks.Nil? then [] else ks.keys;
    var items := seq(|keys|, i requires 0 <= i < |keys| => Present(JwkFields(keys[i])));
    assert Objects(items) == JwkItems(keys);
    forall i, name | 0 <= i < |items|
      ensures Lookup(ToMap(items[i]), name)
        == if name == "kty" || JwkText(keys[i], name) != "" then Some(Str(JwkText(keys[i], name))) else None
    {
      JwkMembersExactly(keys[i], name);
    }
    var ms := [Member("keys", Arr(JwkItems(keys)))];
    UnmarshalMapPrint(ms);
    OneMember("keys", Arr(JwkItems(keys)));
  }

  function Objects(items: seq<seq<Member>>): seq<Value> {
    seq(|items|, i requires 0 <= i < |items| => Obj(items[i]))
  }

  lemma OneMember(name: string, v: Value)
    ensures ToMap([Member(name, v)]) == map[name := v]
  {
    assert [Member(name, v)][..0] == [];
  }

  /** The document reads back as the list of keys, whatever their fields hold; a nil set reads as an empty one. */
  lemma UnmarshalMarshal(ks: Keys)
    ensures Unmarshal(Marshal(ks)) == Some(if ks.Nil? then [] else ks.keys)
  {
    hide JwkItems, ReadItems, UnmarshalMap;
    var keys := if ks.Nil? then [] else ks.keys;
    var ms := [Member("keys", Arr(JwkItems(keys)))];
    UnmarshalMapPrint(ms);
    assert ms[..0] == [];
    assert ToMap(ms) == map["keys" := Arr(JwkItems(keys))];
    ReadJwkItems(keys);
  }
}
