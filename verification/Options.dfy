/** The option list of NewSigner: each option checks its argument, then sets one field of a shared config. */
module Options {
  import opened Common
  import opened Keys

  /** The clock a signer reads; its readings are inputs of the operations that take the time. */
  datatype Clock = SystemClock | CallerClock(id: nat)

  datatype Opt =
    | WithIssuer(iss: string)
    | WithAlgorithm(alg: Algorithm)
    | WithSigningKeyPem(pem: seq<byte>)
    | WithSigningKeyFile(content: Option<seq<byte>>) // what reading the file gave
    | WithKeyId(kid: string)
    | WithDefaultTtl(ttl: int)
    | WithTokenTypeClaim(name: string)
    | WithHeaderTyp(typ: string)
    | WithClock(now: Option<Clock>) // None is the nil function

  /** The contents of a config. Durations are nanoseconds. */
  datatype Settings = Settings(
    issuer: string, algorithm: Algorithm, keyPem: seq<byte>, keyId: string,
    defaultTtl: int, now: Clock, tokenTypeClaim: string, headerTyp: string)

  const SECOND := 1_000_000_000

  const DEFAULT_SETTINGS := Settings("", "RS256", [], "", 5 * 60 * SECOND, SystemClock, "token_type", "JWT")

  /** The error an option returns; it never depends on the config. */
  function Refusal(o: Opt): Option<Error> {
    match o
    case WithIssuer(iss) => if iss == "" then Some(IssuerEmpty) else None
    case WithAlgorithm(alg) => if Supported(alg) then None else Some(UnsupportedAlgorithm(alg))
    case WithSigningKeyPem(pem) => if pem == [] then Some(NoSigningKey) else None
    case WithSigningKeyFile(content) => if content.None? then Some(KeyFileUnreadable) else None
    case WithKeyId(_) => None
    case WithDefaultTtl(ttl) => if ttl <= 0 then Some(TtlNotPositive) else None
    case WithTokenTypeClaim(name) => if name == "" then Some(TokenTypeClaimEmpty) else None
    case WithHeaderTyp(typ) => if typ == "" then Some(HeaderTypEmpty) else None
    case WithClock(now) => if now.None? then Some(ClockNil) else None
  }

  function Stored(s: Settings, o: Opt): Settings
    requires Refusal(o).None?
  {
    match o
    case WithIssuer(iss) => s.(issuer := iss)
    case WithAlgorithm(alg) => s.(algorithm := alg)
    case WithSigningKeyPem(pem) => s.(keyPem := pem)
    case WithSigningKeyFile(content) => s.(keyPem := content.value)
    case WithKeyId(kid) => s.(keyId := kid)
    case WithDefaultTtl(ttl) => s.(defaultTtl := ttl)
    case WithTokenTypeClaim(name) => s.(tokenTypeClaim := name)
    case WithHeaderTyp(typ) => s.(headerTyp := typ)
    case WithClock(now) => s.(now := now.value)
  }

  /** The config the options change in place. */
  class Config {
    var issuer: string
    var algorithm: Algorithm
    var keyPem: seq<byte>
    var keyId: string
    var defaultTtl: int
    var now: Clock
    var tokenTypeClaim: string
    var headerTyp: string

    /** defaultConfig. */
    constructor ()
      ensures Value() == DEFAULT_SETTINGS
    {
      issuer := "";
      algorithm := RS256;
      keyPem := [];
      keyId := "";
      defaultTtl := 5 * 60 * SECOND;
      now := SystemClock;
      tokenTypeClaim := "token_type";
      headerTyp := "JWT";
    }

    function Value(): Settings
      reads this
    {
      Settings(issuer, algorithm, keyPem, keyId, defaultTtl, now, tokenTypeClaim, headerTyp)
    }

    /** One option: refuse and change nothing, or set the one field. */
    method Apply(o: Opt) returns (err: Option<Error>)
      modifies this
      ensures err == Refusal(o)
      ensures Value() == if err.None? then Stored(old(Value()), o) else old(Value())
    {
      match o {
        case WithIssuer(iss) =>
          if iss == "" { return Some(IssuerEmpty); }
          issuer := iss;
        case WithAlgorithm(alg) =>
          if !Supported(alg) { return Some(UnsupportedAlgorithm(alg)); }
          algorithm := alg;
        case WithSigningKeyPem(pem) =>
          if |pem| == 0 { return Some(NoSigningKey); }
          keyPem := pem;
        case WithSigningKeyFile(content) =>
          if content.None? { return Some(KeyFileUnreadable); }
          keyPem := content.value;
        case WithKeyId(kid) =>
          keyId := kid;
        case WithDefaultTtl(ttl) =>
          if ttl <= 0 { return Some(TtlNotPositive); }
          defaultTtl := ttl;
        case WithTokenTypeClaim(name) =>
          if name == "" { return Some(TokenTypeClaimEmpty); }
          tokenTypeClaim := name;
        case WithHeaderTyp(typ) =>
          if typ == "" { return Some(HeaderTypEmpty); }
          headerTyp := typ;
        case WithClock(clock) =>
          if clock.None? { return Some(ClockNil); }
          now := clock.value;
      }
      return None;
    }
  }

  /** The options applied in order, up to the first refusal. */
  function Configured(opts: seq<Opt>): Result<Settings, Error> {
    if opts == [] then Ok(DEFAULT_SETTINGS)
    else
      var s :- Configured(opts[..|opts| - 1]);
      var last := opts[|opts| - 1];
      if Refusal(last).Some? then Err(Refusal(last).value) else Ok(Stored(s, last))
  }

  method Configure(opts: seq<Opt>) returns (r: Result<Settings, Error>)
    ensures r == Configured(opts)
  {
    var cfg := new Config();
    assert opts[..0] == [];
    for i := 0 to |opts|
      invariant Configured(opts[..i]) == Ok(cfg.Value())
    {
      assert opts[..i + 1][..i] == opts[..i];
      var err := cfg.Apply(opts[i]);
      if err.Some? {
        RefusalStays(opts, i + 1);
        return Err(err.value);
      }
    }
    assert opts[..|opts|] == opts;
    return Ok(cfg.Value());
  }

  lemma {:induction false} RefusalStays(opts: seq<Opt>, n: nat)
    requires n <= |opts| && Configured(opts[..n]).Err?
    ensures Configured(opts) == Configured(opts[..n])
  {
    if n < |opts| {
      assert opts[..|opts| - 1][..n] == opts[..n];
      RefusalStays(opts[..|opts| - 1], n);
    } else {
      assert opts[..n] == opts;
    }
  }

  // ----- what a list of options amounts to -----

  predicate Accepted(opts: seq<Opt>) { forall i :: 0 <= i < |opts| ==> Refusal(opts[i]).None? }

  /** The first option that is refused. */
  predicate FirstRefused(opts: seq<Opt>, i: nat) {
    i < |opts| && Refusal(opts[i]).Some? && Accepted(opts[..i])
  }

  datatype Field =
    | IssuerField | AlgorithmField | KeyField | KeyIdField
    | TtlField | TokenTypeField | TypField | ClockField

  datatype Setting = Text(s: string) | Octets(b: seq<byte>) | Nanos(n: int) | Source(c: Clock)

  function Target(o: Opt): Field {
    match o
    case WithIssuer(_) => IssuerField
    case WithAlgorithm(_) => AlgorithmField
    case WithSigningKeyPem(_) => KeyField
    case WithSigningKeyFile(_) => KeyField
    case WithKeyId(_) => KeyIdField
    case WithDefaultTtl(_) => TtlField
    case WithTokenTypeClaim(_) => TokenTypeField
    case WithHeaderTyp(_) => TypField
    case WithClock(_) => ClockField
  }

  /** The argument an accepted option carries. */
  function Written(o: Opt): Setting
    requires Refusal(o).None?
  {
    match o
    case WithIssuer(iss) => Text(iss)
    case WithAlgorithm(alg) => Text(alg)
    case WithSigningKeyPem(pem) => Octets(pem)
    case WithSigningKeyFile(content) => Octets(content.value)
    case WithKeyId(kid) => Text(kid)
    case WithDefaultTtl(ttl) => Nanos(ttl)
    case WithTokenTypeClaim(name) => Text(name)
    case WithHeaderTyp(typ) => Text(typ)
    case WithClock(now) => Source(now.value)
  }

  function Get(s: Settings, f: Field): Setting {
    match f
    case IssuerField => Text(s.issuer)
    case AlgorithmField => Text(s.algorithm)
    case KeyField => Octets(s.keyPem)
    case KeyIdField => Text(s.keyId)
    case TtlField => Nanos(s.defaultTtl)
    case TokenTypeField => Text(s.tokenTypeClaim)
    case TypField => Text(s.headerTyp)
    case ClockField => Source(s.now)
  }

  /** The options of a list that target f, in order. */
  function For(opts: seq<Opt>, f: Field): seq<Opt> {
    if opts == [] then []
    else
      var init, last := opts[..|opts| - 1], opts[|opts| - 1];
      if Target(last) == f then For(init, f) + [last] else For(init, f)
  }

  lemma {:induction false} ConfiguredWhenAccepted(opts: seq<Opt>)
    ensures Configured(opts).Ok? <==> Accepted(opts)
  {
    if opts != [] {
      var init, last := opts[..|opts| - 1], opts[|opts| - 1];
      ConfiguredWhenAccepted(init);
      assert Accepted(opts) <==> Accepted(init) && Refusal(last).None?;
    }
  }

  /** The error of a refused list is the error of its first refused option. */
  lemma {:induction false} FirstRefusalReported(opts: seq<Opt>, i: nat)
    requires FirstRefused(opts, i)
    ensures Configured(opts) == Err(Refusal(opts[i]).value)
  {
    var upTo := opts[..i + 1];
    assert upTo[..i] == opts[..i];
    ConfiguredWhenAccepted(opts[..i]);
    RefusalStays(opts, i + 1);
  }

  lemma StoredField(s: Settings, o: Opt, f: Field)
    requires Refusal(o).None?
    ensures Get(Stored(s, o), f) == if Target(o) == f then Written(o) else Get(s, f)
  {
  }

  /** Each field holds what the last option targeting it wrote, or its default. */
  lemma {:induction false} LastWriteWins(opts: seq<Opt>, f: Field)
    requires Accepted(opts)
    ensures Configured(opts).Ok? && Accepted(For(opts, f))
    ensures var writers := For(opts, f);
            Get(Configured(opts).value, f)
            == if writers == [] then Get(DEFAULT_SETTINGS, f) else Written(writers[|writers| - 1])
  {
    if opts != [] {
      var init, last := opts[..|opts| - 1], opts[|opts| - 1];
      assert Accepted(init) && Refusal(last).None?;
      LastWriteWins(init, f);
      hide Refusal;
      StoredField(Configured(init).value, last, f);
    }
  }

  lemma SettingsExtensional(a: Settings, b: Settings)
    requires forall f :: Get(a, f) == Get(b, f)
    ensures a == b
  {
    assert Get(a, IssuerField) == Get(b, IssuerField) && Get(a, AlgorithmField) == Get(b, AlgorithmField);
    assert Get(a, KeyField) == Get(b, KeyField) && Get(a, KeyIdField) == Get(b, KeyIdField);
    assert Get(a, TtlField) == Get(b, TtlField) && Get(a, TokenTypeField) == Get(b, TokenTypeField);
    assert Get(a, TypField) == Get(b, TypField) && Get(a, ClockField) == Get(b, ClockField);
  }

  /** Options on different fields commute: only the order among options on one field matters. */
  lemma OrderAcrossFields(a: seq<Opt>, b: seq<Opt>)
    requires Accepted(a) && Accepted(b)
    requires forall f :: For(a, f) == For(b, f)
    ensures Configured(a) == Configured(b)
  {
    hide Configured, Accepted, For, Get, Written;
    ConfiguredWhenAccepted(a);
    ConfiguredWhenAccepted(b);
    forall f ensures Get(Configured(a).value, f) == Get(Configured(b).value, f) {
      LastWriteWins(a, f);
      LastWriteWins(b, f);
      assert For(a, f) == For(b, f);
    }
    SettingsExtensional(Configured(a).value, Configured(b).value);
  }

  /** With only what NewSigner demands, everything else has the documented default. */
  lemma DefaultsDocumented(i: string, p: seq<byte>)
    requires i != "" && p != []
    ensures Configured([WithIssuer(i), WithSigningKeyPem(p)])
         == Ok(Settings(i, "RS256", p, "", 300_000_000_000, SystemClock, "token_type", "JWT"))
  {
    var opts := [WithIssuer(i), WithSigningKeyPem(p)];
    assert opts[..1] == [WithIssuer(i)] && opts[..1][..0] == [];
    assert Configured(opts[..1]) == Ok(DEFAULT_SETTINGS.(issuer := i));
  }

  /** The algorithms an option accepts: three digests with each of three signature schemes (section 3.1 of RFC 7518). */
  lemma AlgorithmsExactly(alg: Algorithm)
    ensures Refusal(WithAlgorithm(alg)).None?
       <==> exists scheme, digest ::
              scheme in {"RS", "PS", "ES"} && digest in {"256", "384", "512"} && alg == scheme + digest
    ensures IsRsa(alg) <==> Supported(alg) && alg[0] in {'R', 'P'}
    ensures IsEc(alg) <==> Supported(alg) && alg[0] == 'E'
  {
    assert "RS256" == "RS" + "256" && "RS384" == "RS" + "384" && "RS512" == "RS" + "512";
    assert "PS256" == "PS" + "256" && "PS384" == "PS" + "384" && "PS512" == "PS" + "512";
    assert "ES256" == "ES" + "256" && "ES384" == "ES" + "384" && "ES512" == "ES" + "512";
  }
}
