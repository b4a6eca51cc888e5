/** The claim set of one token and the text MarshalJSON makes of it. */
module Payload {
  import opened Common
  import opened Keys
  import opened Json
  import opened Number
  import opened Fields
  import opened SortedObject
  import opened JsonRoundTrip
  import JsonParser

  /** A caller's payload: its JSON, unless it cannot be marshalled, and whether its Validate accepts it. */
  datatype Variant = Variant(encoded: Option<Value>, valid: bool)

  datatype Registered = Registered(
    iss: string, sub: string, aud: seq<string>, exp: int, nbf: int, iat: int, jti: string)

  /** tokenClaims. Dates are whole seconds. */
  datatype TokenClaims = TokenClaims(
    registered: Registered, acr: string, amr: seq<string>, authTime: int, clientId: string, scope: string,
    roles: seq<string>, name: string, email: string, preferredUsername: string, tokenType: string,
    tokenTypeClaim: string, variantKey: string, variant: Option<Variant>)

  function Strings(items: seq<string>): (v: seq<Value>)
    ensures |v| == |items| && forall i :: 0 <= i < |v| ==> v[i] == Str(items[i])
  {
    seq(|items|, i requires 0 <= i < |items| => Str(items[i]))
  }

  function TextList(name: string, items: seq<string>): Field {
    Field(name, if items == [] then None else Some(Arr(Strings(items))))
  }

  function Seconds(t: int): Value { Num(FormatInt(t)) }

  /** The struct MarshalJSON prints first: the registered claims, then the OIDC and access-token claims. */
  function StandardFields(c: TokenClaims): seq<Field> {
    var r := c.registered;
    [Text("iss", r.iss), Text("sub", r.sub), TextList("aud", r.aud),
     Field("exp", Some(Seconds(r.exp))), Field("nbf", Some(Seconds(r.nbf))), Field("iat", Some(Seconds(r.iat))),
     Text("jti", r.jti), Text("acr", c.acr), TextList("amr", c.amr),
     Field("auth_time", if c.authTime == 0 then None else Some(Seconds(c.authTime))),
     Text("client_id", c.clientId), Text("scope", c.scope), TextList("roles", c.roles),
     Text("name", c.name), Text("email", c.email), Text("preferred_username", c.preferredUsername)]
  }

  /** The claim map with the token type laid over it. */
  function WithTokenType(c: TokenClaims): map<string, Value> {
    var m := ToMap(Present(StandardFields(c)));
    if c.tokenType != "" then m[c.tokenTypeClaim := Str(c.tokenType)] else m
  }

  /** The whole claim map: the variant goes under its key, unless the key is taken. */
  function ClaimMap(c: TokenClaims): Result<map<string, Value>, Error> {
    var m := WithTokenType(c);
    if c.variantKey != "" && c.variant.Some? then
      if c.variantKey in m then Err(ReservedClaimsKey(c.variantKey))
      else if c.variant.value.encoded.None? then Err(NotSerialisable)
      else Ok(m[c.variantKey := c.variant.value.encoded.value])
    else Ok(m)
  }

  function PayloadText(c: TokenClaims): Result<string, Error> {
    var m :- ClaimMap(c);
    Ok(PrintMap(m))
  }

  /**
   MarshalJSON, step by step: print the standard claims, read them back as raw
   messages, add the two overlays as text, and print again with sorted keys.
   The detour through text gives what printing the claim map once would.
   */
  method MarshalJson(c: TokenClaims) returns (r: Result<string, Error>)
    ensures r == PayloadText(c)
  {
    hide Print, StandardFields, PrintMap, PrintRawMap, ToMap, JsonParser.UnmarshalRaw, PrintString, SortedKeys;
    var raw := Print(Obj(Present(StandardFields(c))));
    UnmarshalRawPrint(Present(StandardFields(c)));
    var parsed := JsonParser.UnmarshalRaw(raw);
    var m := parsed.value;
    ghost var model := ToMap(Present(StandardFields(c)));
    assert Texts(m, model);
    if c.tokenType != "" {
      m := m[c.tokenTypeClaim := Print(Str(c.tokenType))];
      model := model[c.tokenTypeClaim := Str(c.tokenType)];
      assert Texts(m, model);
    }
    if c.variantKey != "" && c.variant.Some? {
      if c.variantKey in m {
        return Err(ReservedClaimsKey(c.variantKey));
      }
      if c.variant.value.encoded.None? {
        return Err(NotSerialisable);
      }
      m := m[c.variantKey := Print(c.variant.value.encoded.value)];
      model := model[c.variantKey := c.variant.value.encoded.value];
      assert Texts(m, model);
    }
    PrintRawMapIsPrintMap(model, m);
    r := Ok(PrintRawMap(m));
  }

  /** Under each key, raw holds the text of the value in m. */
  ghost predicate Texts(raw: map<string, string>, m: map<string, Value>) {
    raw.Keys == m.Keys && forall k :: k in m ==> raw[k] == Print(m[k])
  }

  // ----- what the payload says, name by name -----

  const STANDARD_NAMES: set<string> := {
    "iss", "sub", "aud", "exp", "nbf", "iat", "jti", "acr", "amr", "auth_time",
    "client_id", "scope", "roles", "name", "email", "preferred_username"
  }

  /** The order in which the struct lists them. */
  const STANDARD_ORDER: seq<string> := [
    "iss", "sub", "aud", "exp", "nbf", "iat", "jti", "acr", "amr", "auth_time",
    "client_id", "scope", "roles", "name", "email", "preferred_username"
  ]

  function OptionalText(s: string): Option<Value> { if s == "" then None else Some(Str(s)) }

  function OptionalList(items: seq<string>): Option<Value> { if items == [] then None else Some(Arr(Strings(items))) }

  /** What a standard name stands for, if its claim is not empty. */
  function Standard(c: TokenClaims, name: string): Option<Value> {
    var r := c.registered;
    if name == "iss" then OptionalText(r.iss)
    else if name == "sub" then OptionalText(r.sub)
    else if name == "aud" then OptionalList(r.aud)
    else if name == "exp" then Some(Seconds(r.exp))
    else if name == "nbf" then Some(Seconds(r.nbf))
    else if name == "iat" then Some(Seconds(r.iat))
    else if name == "jti" then OptionalText(r.jti)
    else if name == "acr" then OptionalText(c.acr)
    else if name == "amr" then OptionalList(c.amr)
    else if name == "auth_time" then (if c.authTime == 0 then None else Some(Seconds(c.authTime)))
    else if name == "client_id" then OptionalText(c.clientId)
    else if name == "scope" then OptionalText(c.scope)
    else if name == "roles" then OptionalList(c.roles)
    else if name == "name" then OptionalText(c.name)
    else if name == "email" then OptionalText(c.email)
    else if name == "preferred_username" then OptionalText(c.preferredUsername)
    else None
  }

  /** The claim a payload carries under a name: variant over token type over standard claim. */
  function Claim(c: TokenClaims, name: string): Option<Value> {
    if c.variantKey != "" && c.variant.Some? && name == c.variantKey then c.variant.value.encoded
    else if c.tokenType != "" && name == c.tokenTypeClaim then Some(Str(c.tokenType))
    else Standard(c, name)
  }

  lemma StandardFieldNames(c: TokenClaims)
    ensures |StandardFields(c)| == |STANDARD_ORDER|
    ensures forall i :: 0 <= i < |STANDARD_ORDER| ==> StandardFields(c)[i].name == STANDARD_ORDER[i]
  {
    hide Seconds, FormatInt, Strings;
  }

  lemma StandardNamesDistinct(c: TokenClaims)
    ensures DistinctNames(StandardFields(c))
  {
    hide Seconds, FormatInt, StandardFields;
    StandardFieldNames(c);
  }

  lemma StandardFieldValues(c: TokenClaims, i: nat)
    requires i < |StandardFields(c)|
    ensures StandardFields(c)[i].value == Standard(c, StandardFields(c)[i].name)
    ensures StandardFields(c)[i].name in STANDARD_NAMES
  {
    hide StandardFields, Standard;
    StandardFieldNames(c);
    if i < 8 {
      IdentityValues(c, i);
    } else {
      AccessValues(c, i);
    }
  }

  lemma IdentityValues(c: TokenClaims, i: nat)
    requires i < 8
    ensures StandardFields(c)[i].value == Standard(c, STANDARD_ORDER[i])
  {
    hide Seconds, FormatInt, Strings;
  }

  lemma AccessValues(c: TokenClaims, i: nat)
    requires 8 <= i < 16
    ensures StandardFields(c)[i].value == Standard(c, STANDARD_ORDER[i])
  {
    hide Seconds, FormatInt, Strings;
  }

  lemma StandardNameListed(c: TokenClaims, name: string) returns (i: nat)
    requires name in STANDARD_NAMES
    ensures i < |StandardFields(c)| && StandardFields(c)[i].name == name
  {
    hide StandardFields;
    StandardFieldNames(c);
    i := if name == "iss" then 0 else if name == "sub" then 1 else if name == "aud" then 2
    else if name == "exp" then 3 else if name == "nbf" then 4 else if name == "iat" then 5
    else if name == "jti" then 6 else if name == "acr" then 7 else if name == "amr" then 8
    else if name == "auth_time" then 9 else if name == "client_id" then 10 else if name == "scope" then 11
    else if name == "roles" then 12 else if name == "name" then 13 else if name == "email" then 14 else 15;
  }

  lemma OnlyStandardNames(c: TokenClaims, name: string)
    ensures Standard(c, name).Some? ==> name in STANDARD_NAMES
  {
    hide Seconds, FormatInt;
  }

  /** The first pass prints and reads back each standard claim under its own name, and no empty one. */
  lemma StandardClaims(c: TokenClaims, name: string)
    ensures Lookup(ToMap(Present(StandardFields(c))), name) == Standard(c, name)
  {
    hide StandardFields, Standard, Present, ToMap;
    var f := StandardFields(c);
    StandardNamesDistinct(c);
    PresentReadsBack(f);
    OnlyStandardNames(c, name);
    if name in STANDARD_NAMES {
      var i := StandardNameListed(c, name);
      StandardFieldValues(c, i);
    } else if name in ToMap(Present(f)) {
      var i :| 0 <= i < |f| && f[i].name == name;
      StandardFieldValues(c, i);
    }
  }

  lemma ClaimMapPointwise(c: TokenClaims, name: string)
    requires ClaimMap(c).Ok?
    ensures Lookup(ClaimMap(c).value, name) == Claim(c, name)
  {
    hide StandardFields, Standard, Present, ToMap;
    StandardClaims(c, name);
  }

  /** Reading a payload gives, under every name, the claim it stands for and nothing else. */
  lemma PayloadReadsBack(c: TokenClaims)
    requires PayloadText(c).Ok?
    ensures ClaimMap(c).Ok? && JsonParser.UnmarshalMap(PayloadText(c).value) == Some(ClaimMap(c).value)
    ensures forall name :: Lookup(ClaimMap(c).value, name) == Claim(c, name)
  {
    hide PrintMap, JsonParser.UnmarshalMap, Claim, ClaimMap;
    UnmarshalPrintMap(ClaimMap(c).value);
    forall name ensures Lookup(ClaimMap(c).value, name) == Claim(c, name) {
      ClaimMapPointwise(c, name);
    }
  }

  lemma MapsByLookup(a: map<string, Value>, b: map<string, Value>)
    requires forall name :: Lookup(a, name) == Lookup(b, name)
    ensures a == b
  {
    forall name ensures (name in a <==> name in b) && (name in a ==> a[name] == b[name]) {
      assert Lookup(a, name) == Lookup(b, name);
    }
  }

  /** The payload bytes depend on the claims alone: members inserted in any order give the same text. */
  lemma PayloadTextDetermined(c: TokenClaims, inserted: seq<Member>)
    requires PayloadText(c).Ok?
    requires forall name :: Lookup(ToMap(inserted), name) == Claim(c, name)
    ensures PrintMap(ToMap(inserted)) == PayloadText(c).value
  {
    hide PrintMap, ToMap, Claim, ClaimMap, JsonParser.UnmarshalMap;
    PayloadReadsBack(c);
    MapsByLookup(ToMap(inserted), ClaimMap(c).value);
  }
}
