/** verify_shadow_action of strathmark/auth.py over the durable nonce claims of
    strathmark/ledger.py: who is let in, and when a nonce is spent. */
module Authorisation {
  import opened Wrappers
  import opened Tallies
  import opened Attestation

  // ---------------------------------------------------------------- nonce claims

  /** A claimed nonce, by consumer, with the expiry of the assertion that spent it. */
  type Claims = map<(string, string), int>

  datatype Outcome = Claimed | AlreadyClaimed | Full | Late

  function Alive(claims: Claims, now: int): Claims {
    map k | k in claims && claims[k] > now :: claims[k]
  }

  function HeldBy(claims: Claims, consumer: string): set<(string, string)> {
    set k | k in claims && k.0 == consumer
  }

  /** The transaction of a claim that carries the stamp: what the stamp calls expired goes, a
      claim still there refuses, a full consumer rolls back. */
  function Transact(claims: Claims, consumer: string, nonce: string, expires: int, stamp: int): (Outcome, Claims) {
    var alive := Alive(claims, stamp);
    if (consumer, nonce) in alive then (AlreadyClaimed, alive)
    else if |HeldBy(alive, consumer)| >= MAX_ACTIVE then (Full, claims)
    else (Claimed, alive[(consumer, nonce) := expires])
  }

  /** A whole claim: the clock is read and the expiry checked before the transaction begins, so
      the stamp may be older than what other claims have done by then. */
  function Settle(claims: Claims, consumer: string, nonce: string, expires: int, stamp: int): (Outcome, Claims) {
    if expires <= stamp then (Late, claims) else Transact(claims, consumer, nonce, expires, stamp)
  }

  ghost predicate Bounded(claims: Claims) {
    forall consumer :: |HeldBy(claims, consumer)| <= MAX_ACTIVE
  }

  /** A transaction keeps every consumer within its share and claims only what was free. */
  lemma SettleIsSound(claims: Claims, consumer: string, nonce: string, expires: int, now: int)
    requires Bounded(claims)
    ensures
      var (outcome, after) := Settle(claims, consumer, nonce, expires, now);
      && Bounded(after)
      && (outcome == Claimed ==> after.Keys == Alive(claims, now).Keys + {(consumer, nonce)})
      && (forall k | k in claims && claims[k] > now :: k in after && after[k] == claims[k])
  {
    forall c {
      ShareIsKept(claims, consumer, nonce, expires, now, c);
    }
  }

  lemma HeldAfterClaim(alive: Claims, k: (string, string), expires: int, c: string)
    requires k !in alive
    ensures HeldBy(alive[k := expires], c) == HeldBy(alive, c) + if k.0 == c then {k} else {}
    ensures k !in HeldBy(alive, c)
  {}

  lemma ShareIsKept(claims: Claims, consumer: string, nonce: string, expires: int, now: int, c: string)
    requires |HeldBy(claims, c)| <= MAX_ACTIVE
    ensures |HeldBy(Settle(claims, consumer, nonce, expires, now).1, c)| <= MAX_ACTIVE
  {
    var alive := Alive(claims, now);
    SubsetsAreSmaller(HeldBy(alive, c), HeldBy(claims, c));
    if (consumer, nonce) !in alive {
      HeldAfterClaim(alive, (consumer, nonce), expires, c);
    }
  }

  class Ledger {
    var claims: Claims

    constructor ()
      ensures claims == map[] && Bounded(claims)
    {
      claims := map[];
      new;
      forall c ensures |HeldBy(claims, c)| <= MAX_ACTIVE {
        assert HeldBy(claims, c) == {};
      }
    }

    /** The check against the clock before the database is opened; None is the ValueError. */
    method Stamp(expires: int, now: int) returns (stamp: Option<int>)
      ensures stamp == if expires <= now then None else Some(now)
    {
      return if expires <= now then None else Some(now);
    }

    /** The transaction, on the claims as they are once the write lock is held. */
    method Commit(consumer: string, nonce: string, expires: int, stamp: int) returns (outcome: Outcome)
      requires Bounded(claims) && stamp < expires
      modifies this
      ensures (outcome, claims) == Transact(old(claims), consumer, nonce, expires, stamp)
      ensures Bounded(claims)
    {
      SettleIsSound(claims, consumer, nonce, expires, stamp);
      var before := claims;
      claims := Alive(claims, stamp);
      if (consumer, nonce) in claims {
        return AlreadyClaimed;
      }
      if |HeldBy(claims, consumer)| >= MAX_ACTIVE {
        claims := before;
        return Full;
      }
      claims := claims[(consumer, nonce) := expires];
      return Claimed;
    }

    /** Both, with nobody else at work in between. */
    method Claim(consumer: string, nonce: string, expires: int, now: int) returns (outcome: Outcome)
      requires Bounded(claims)
      modifies this
      ensures (outcome, claims) == Settle(old(claims), consumer, nonce, expires, now)
      ensures Bounded(claims)
    {
      var stamp := Stamp(expires, now);
      if stamp.None? {
        return Late;
      }
      outcome := Commit(consumer, nonce, expires, stamp.value);
    }
  }

  // ---------------------------------------------------------------- configuration and request

  /** The two secret tables; None where the environment does not hold a readable one. */
  datatype Config = Config(credentials: Option<map<string, string>>, keys: Option<map<string, string>>)

  datatype Request = Request(
    authorization: string, assertion: string, consumer: string, actor: Option<string>,
    action: string, revision: string, digest: string)

  predicate OneToOne(secrets: map<string, string>) {
    forall a, b | a in secrets && b in secrets && a != b :: secrets[a] != secrets[b]
  }

  /** Every consumer has its own credential and its own key, and no secret serves twice. */
  predicate Configured(credentials: map<string, string>, keys: map<string, string>) {
    && credentials.Keys == keys.Keys
    && OneToOne(credentials) && OneToOne(keys)
    && credentials.Values !! keys.Values
  }

  const BEARER := "Bearer "

  function Token(authorization: string): Option<string> {
    if |authorization| < |BEARER| || authorization[..|BEARER|] != BEARER then None
    else
      var token := authorization[|BEARER|..];
      if IsSecret(token) then Some(token) else None
  }

  function Namespace(identity: string): string {
    if identity == "" || identity[0] == ':' then "" else [identity[0]] + Namespace(identity[1..])
  }

  lemma {:induction false} ValuesAreFewer(secrets: map<string, string>)
    ensures |secrets.Values| <= |secrets|
    decreases |secrets|
  {
    if secrets != map[] {
      var a :| a in secrets;
      var rest := secrets - {a};
      ValuesAreFewer(rest);
      assert secrets.Keys == rest.Keys + {a} && secrets.Values == rest.Values + {secrets[a]};
    }
  }

  lemma WithoutOne(secrets: map<string, string>, a: string)
    requires a in secrets
    ensures var rest := secrets - {a};
            |secrets| == |rest| + 1 && secrets.Values == rest.Values + {secrets[a]}
  {
    assert secrets.Keys == (secrets - {a}).Keys + {a};
  }

  /** No two share a secret exactly when there are as many secrets as consumers. */
  lemma {:induction false} OneToOneIff(secrets: map<string, string>)
    ensures OneToOne(secrets) <==> |secrets.Values| == |secrets|
    decreases |secrets|
  {
    if !OneToOne(secrets) {
      var a, b :| a in secrets && b in secrets && a != b && secrets[a] == secrets[b];
      SharedIsFewer(secrets, a, b);
    } else if secrets != map[] {
      var a :| a in secrets;
      WithoutOne(secrets, a);
      OneToOneIff(secrets - {a});
      assert secrets[a] !in (secrets - {a}).Values;
    }
  }

  lemma SharedIsFewer(secrets: map<string, string>, a: string, b: string)
    requires a in secrets && b in secrets && a != b && secrets[a] == secrets[b]
    ensures |secrets.Values| < |secrets|
  {
    WithoutOne(secrets, a);
    ValuesAreFewer(secrets - {a});
    assert (secrets - {a})[b] == secrets[a];
    assert secrets.Values == (secrets - {a}).Values;
  }

  /** A configuration is used exactly when both tables know the same consumers, have as many
      secrets as consumers, and share none. */
  lemma ConfiguredIff(credentials: map<string, string>, keys: map<string, string>)
    ensures Configured(credentials, keys) <==>
      && (forall consumer :: consumer in credentials <==> consumer in keys)
      && |credentials.Values| == |credentials| && |keys.Values| == |keys|
      && (forall a, b | a in credentials && b in keys :: credentials[a] != keys[b])
  {
    OneToOneIff(credentials);
    OneToOneIff(keys);
    DisjointIff(credentials, keys);
    assert credentials.Keys == keys.Keys <==> forall consumer :: consumer in credentials <==> consumer in keys;
  }

  lemma DisjointIff(credentials: map<string, string>, keys: map<string, string>)
    ensures credentials.Values !! keys.Values <==>
      forall a, b | a in credentials && b in keys :: credentials[a] != keys[b]
  {
    if !(credentials.Values !! keys.Values) {
      var secret :| secret in credentials.Values && secret in keys.Values;
      var a :| a in credentials && credentials[a] == secret;
      var b :| b in keys && keys[b] == secret;
    }
    forall a, b | a in credentials && b in keys && credentials[a] == keys[b]
      ensures !(credentials.Values !! keys.Values)
    {
      assert credentials[a] in credentials.Values && keys[b] in keys.Values;
    }
  }

  /** A bearer token is what follows "Bearer " if it is ASCII and of 16 to 4096 characters. */
  lemma TokenIff(authorization: string, token: string)
    ensures Token(authorization) == Some(token) <==>
      && authorization == "Bearer " + token
      && 16 <= |token| <= 4096 && forall i | 0 <= i < |token| :: token[i] as int < 128
  {
    var given := "Bearer " + token;
    assert given[..7] == "Bearer " && given[7..] == token;
    if |authorization| >= 7 && authorization[..7] == "Bearer " {
      assert authorization == "Bearer " + authorization[7..];
    }
  }

  /** The namespace is what stands before the first colon. */
  lemma {:induction false} NamespaceEndsAtColon(identity: string)
    ensures
      var namespace := Namespace(identity);
      && namespace <= identity && ':' !in namespace
      && (namespace == identity || identity[|namespace|] == ':')
  {
    if identity != "" && identity[0] != ':' {
      NamespaceEndsAtColon(identity[1..]);
    }
  }

  /** The assertion a request presents under the key of the consumer it names. */
  function Presented(lib: Library, config: Config, request: Request, now: int): Result<Attested, AuthError> {
    var consumer := lib.identity(request.consumer);
    if consumer.None? || config.keys.None? || consumer.value !in config.keys.value then Err(Misconfigured)
    else
      var p := DecodeAndVerify(lib, request.assertion, config.keys.value[consumer.value]);
      if p.None? then Err(Invalid) else Validate(lib, p.value, now)
  }

  /** The service is who it says it is. */
  predicate ServiceIsKnown(lib: Library, config: Config, request: Request) {
    var consumer, token := lib.identity(request.consumer), Token(request.authorization);
    && consumer.Some? && token.Some? && config.credentials.Some? && config.keys.Some?
    && Configured(config.credentials.value, config.keys.value)
    && consumer.value in config.credentials.value
    && config.credentials.value[consumer.value] == token.value
    && config.keys.value[consumer.value] != ""
  }

  /** What the assertion says is what the request asks for. */
  predicate Covers(lib: Library, request: Request, a: Attested) {
    && lib.identity(request.consumer) == Some(a.consumer)
    && Namespace(a.actor) == Namespace(a.consumer)
    && (request.actor.Some? ==> lib.identity(request.actor.value) == Some(a.actor))
    && a.action == request.action
    && lib.identity(request.revision) == Some(a.revision)
    && a.digest == request.digest
    && a.audience == AUDIENCE
    && exists role | role in a.roles :: role in RolesOf(request.action)
  }

  predicate Authorises(lib: Library, config: Config, request: Request, now: int) {
    && ServiceIsKnown(lib, config, request)
    && Presented(lib, config, request, now).Ok?
    && Covers(lib, request, Presented(lib, config, request, now).value)
  }

  lemma AuthorisedAction(lib: Library, config: Config, request: Request, now: int)
    requires Authorises(lib, config, request, now)
    ensures KnownAction(request.action) && lib.identity(request.revision).Some?
  {
    var consumer := lib.identity(request.consumer).value;
    var p := DecodeAndVerify(lib, request.assertion, config.keys.value[consumer]).value;
    ValidatedDigest(lib, p, now);
  }

  /** The checks before the assertion is read, in the source's order: the consumer's key. */
  function ServiceCheck(lib: Library, config: Config, request: Request): (r: Result<string, AuthError>)
    ensures r.Ok? <==>
      && ServiceIsKnown(lib, config, request)
      && lib.identity(request.revision).Some? && KnownAction(request.action)
    ensures r.Ok? ==> r.value == config.keys.value[lib.identity(request.consumer).value]
  {
    var consumer := lib.identity(request.consumer);
    if consumer.None? || lib.identity(request.revision).None? then Err(MalformedExpectation)
    else if !KnownAction(request.action) then Err(UnsupportedAction)
    else if config.credentials.None? then Err(Misconfigured)
    else
      var credentials, token := config.credentials.value, Token(request.authorization);
      if token.None? || token.value !in credentials.Values then Err(BadCredential)
      else if consumer.value !in credentials || credentials[consumer.value] != token.value then Err(WrongConsumer)
      else if config.keys.None? || !Configured(credentials, config.keys.value) then Err(Misconfigured)
      else if config.keys.value[consumer.value] == "" then Err(Misconfigured)
      else Ok(config.keys.value[consumer.value])
  }

  /** The checks of the validated assertion against the request, in the source's order. */
  function ScopeCheck(lib: Library, request: Request, a: Attested): (r: Option<AuthError>)
    requires lib.identity(request.consumer).Some? && lib.identity(request.revision).Some? && IsDigest(a.digest)
    ensures r.None? <==> Covers(lib, request, a)
  {
    var consumer := lib.identity(request.consumer).value;
    if a.consumer != consumer || Namespace(a.actor) != Namespace(consumer) then Some(OutOfScope)
    else if request.actor.Some? && lib.identity(request.actor.value).None? then Some(MalformedExpectation)
    else if request.actor.Some? && a.actor != lib.identity(request.actor.value).value then Some(OutOfScope)
    else if a.action != request.action || a.revision != lib.identity(request.revision).value then Some(OutOfScope)
    else if !IsDigest(request.digest) then Some(MalformedExpectation)
    else if a.digest != request.digest || a.audience != AUDIENCE then Some(OutOfScope)
    else if forall role | role in a.roles :: role !in RolesOf(request.action) then Some(OutOfScope)
    else None
  }

  lemma ValidatedDigest(lib: Library, p: Payload, now: int)
    requires Validate(lib, p, now).Ok?
    ensures IsDigest(Validate(lib, p, now).value.digest)
    ensures KnownAction(Validate(lib, p, now).value.action)
  {}

  /** A whole call with nobody else at work: what it answers and what it leaves of the claims. */
  function Ask(lib: Library, config: Config, request: Request, claims: Claims, now: int, stamp: int):
    (Result<Attested, AuthError>, Claims)
  {
    var key := ServiceCheck(lib, config, request);
    if key.Err? then (Err(key.error), claims)
    else
      var payload := DecodeAndVerify(lib, request.assertion, key.value);
      if payload.None? then (Err(Invalid), claims)
      else
        var a := Validate(lib, payload.value, now);
        if a.Err? then (Err(a.error), claims)
        else
          ValidatedDigest(lib, payload.value, now);
          var refused := ScopeCheck(lib, request, a.value);
          if refused.Some? then (Err(refused.value), claims)
          else
            var (outcome, after) := Settle(claims, a.value.consumer, a.value.nonce, a.value.expires, stamp);
            (Answer(a.value, outcome), after)
  }

  function Answer(a: Attested, outcome: Outcome): Result<Attested, AuthError> {
    match outcome
    case Claimed => Ok(a)
    case AlreadyClaimed => Err(Replayed)
    case Full => Err(LedgerFull)
    case Late => Err(LateClaim)
  }

  /** The nonce of the assertion is claimed, and by that stamp the claim has not expired. */
  predicate Stands(claims: Claims, a: Attested, stamp: int) {
    (a.consumer, a.nonce) in claims && stamp < claims[(a.consumer, a.nonce)]
  }

  ghost function StandingOf(claims: Claims, consumer: string, stamp: int): set<(string, string)> {
    set k | k in claims && k.0 == consumer && stamp < claims[k]
  }

  /** What the answer of a call means for the claims it found and the claims it leaves. */
  ghost predicate Honest(
      result: Result<Attested, AuthError>, a: Attested, before: Claims, after: Claims, stamp: int)
  {
    var key := (a.consumer, a.nonce);
    && (result.Ok? <==> stamp < a.expires && !Stands(before, a, stamp)
                        && |StandingOf(before, a.consumer, stamp)| < 4096)
    && (result.Ok? ==> result.value == a && key in after && after[key] == a.expires)
    && (result == Err(Replayed) <==> stamp < a.expires && Stands(before, a, stamp))
    && (result == Err(LateClaim) <==> a.expires <= stamp)
    && (result == Err(LedgerFull) <==> stamp < a.expires && !Stands(before, a, stamp)
                                       && |StandingOf(before, a.consumer, stamp)| >= 4096)
    && (result in {Err(LateClaim), Err(LedgerFull)} ==> after == before)
    && (result.Ok? || result == Err(Replayed) ==> forall k | !(result.Ok? && k == key) ::
          k in after <==> k in before && stamp < before[k])
    && (forall k | k in after && !(result.Ok? && k == key) :: k in before && after[k] == before[k])
  }

  /** Whoever is not authorised is refused and changes nothing. An authorised call is let in
      exactly when it claims in time a nonce that no unexpired claim holds, for a consumer with
      room, and then the claim stands with the assertion's expiry. */
  lemma AnswersAreHonest(
      lib: Library, config: Config, request: Request, claims: Claims, now: int, stamp: int)
    ensures
      var (result, after) := Ask(lib, config, request, claims, now, stamp);
      && (!Authorises(lib, config, request, now) ==> result.Err? && after == claims)
      && (Authorises(lib, config, request, now) ==>
            Honest(result, Presented(lib, config, request, now).value, claims, after, stamp))
  {
    if Authorises(lib, config, request, now) {
      AuthorisedAction(lib, config, request, now);
      var a := Presented(lib, config, request, now).value;
      SettlesHonestly(claims, a, stamp);
    }
  }

  lemma SettlesHonestly(claims: Claims, a: Attested, stamp: int)
    ensures
      var (outcome, after) := Settle(claims, a.consumer, a.nonce, a.expires, stamp);
      Honest(Answer(a, outcome), a, claims, after, stamp)
  {
    assert HeldBy(Alive(claims, stamp), a.consumer) == StandingOf(claims, a.consumer, stamp);
  }

  /** A request is let in exactly when its service, its assertion and its scope all hold and
      the nonce was free; a request that fails any check spends no nonce. */
  method VerifyShadowAction(
      lib: Library, config: Config, request: Request, ledger: Ledger, now: int, stamp: int)
    returns (result: Result<Attested, AuthError>)
    requires Bounded(ledger.claims)
    modifies ledger
    ensures Bounded(ledger.claims)
    ensures (result, ledger.claims) == Ask(lib, config, request, old(ledger.claims), now, stamp)
    ensures !Authorises(lib, config, request, now) ==> result.Err? && ledger.claims == old(ledger.claims)
    ensures Authorises(lib, config, request, now) ==>
      var a := Presented(lib, config, request, now).value;
      Honest(result, a, old(ledger.claims), ledger.claims, stamp)
  {
    AnswersAreHonest(lib, config, request, ledger.claims, now, stamp);
    var key := ServiceCheck(lib, config, request);
    if key.Err? {
      return Err(key.error);
    }
    var payload := DecodeAndVerify(lib, request.assertion, key.value);
    if payload.None? {
      return Err(Invalid);
    }
    var a := Validate(lib, payload.value, now);
    if a.Err? {
      return Err(a.error);
    }
    ValidatedDigest(lib, payload.value, now);
    var refused := ScopeCheck(lib, request, a.value);
    if refused.Some? {
      return Err(refused.value);
    }
    var outcome := ledger.Claim(a.value.consumer, a.value.nonce, a.value.expires, stamp);
    result := Answer(a.value, outcome);
  }

  // ---------------------------------------------------------------- which error

  /** Everything that can be wrong with a call, in the order in which it is reported. */
  datatype Fault =
    | BadExpectation | NoSuchAction | NoCredentials | NoSuchToken | OthersToken | NoKeys
    | BadAssertion | TooEarly | TooLate | TooLong
    | OtherConsumer | BadActor | OtherPurpose | BadDigest | OtherContent
    | LateToClaim | Reused | NoRoom

  function Rank(f: Fault): nat {
    match f
    case BadExpectation => 0
    case NoSuchAction => 1
    case NoCredentials => 2
    case NoSuchToken => 3
    case OthersToken => 4
    case NoKeys => 5
    case BadAssertion => 6
    case TooEarly => 7
    case TooLate => 8
    case TooLong => 9
    case OtherConsumer => 10
    case BadActor => 11
    case OtherPurpose => 12
    case BadDigest => 13
    case OtherContent => 14
    case LateToClaim => 15
    case Reused => 16
    case NoRoom => 17
  }

  function ErrorOf(f: Fault): AuthError {
    match f
    case BadExpectation => MalformedExpectation
    case NoSuchAction => UnsupportedAction
    case NoCredentials => Misconfigured
    case NoSuchToken => BadCredential
    case OthersToken => WrongConsumer
    case NoKeys => Misconfigured
    case BadAssertion => Invalid
    case TooEarly => NotYetValid
    case TooLate => Expired
    case TooLong => BadLifetime
    case OtherConsumer => OutOfScope
    case BadActor => MalformedExpectation
    case OtherPurpose => OutOfScope
    case BadDigest => MalformedExpectation
    case OtherContent => OutOfScope
    case LateToClaim => LateClaim
    case Reused => Replayed
    case NoRoom => LedgerFull
  }

  /** The assertion a call presents, as far as it can be read. */
  function Read(lib: Library, config: Config, request: Request): Option<Attested> {
    var consumer := lib.identity(request.consumer);
    if consumer.None? || config.keys.None? || consumer.value !in config.keys.value then None
    else
      var p := DecodeAndVerify(lib, request.assertion, config.keys.value[consumer.value]);
      if p.None? then None else Structure(lib, p.value)
  }

  /** A fault that needs something of an earlier check to be looked at is none where that check
      has failed. */
  ghost predicate ServiceHas(lib: Library, config: Config, request: Request, f: Fault) {
    var consumer, token := lib.identity(request.consumer), Token(request.authorization);
    match f
    case BadExpectation => consumer.None? || lib.identity(request.revision).None?
    case NoSuchAction => RolesOf(request.action) == {}
    case NoCredentials => config.credentials.None?
    case NoSuchToken => config.credentials.Some? && (token.None? || token.value !in config.credentials.value.Values)
    case OthersToken =>
      config.credentials.Some? && consumer.Some? && token.Some? &&
      !(consumer.value in config.credentials.value && config.credentials.value[consumer.value] == token.value)
    case NoKeys =>
      config.credentials.Some? && consumer.Some? &&
      (config.keys.None? || !Configured(config.credentials.value, config.keys.value)
       || consumer.value !in config.keys.value || config.keys.value[consumer.value] == "")
    case _ => false
  }

  ghost predicate AssertionHas(read: Option<Attested>, now: int, f: Fault) {
    match f
    case BadAssertion => read.None?
    case TooEarly => read.Some? && now + 5 < read.value.issued
    case TooLate => read.Some? && read.value.expires <= now
    case TooLong => read.Some? && !(0 < read.value.expires - read.value.issued <= 60)
    case _ => false
  }

  ghost predicate ScopeHas(lib: Library, request: Request, a: Attested, f: Fault) {
    match f
    case OtherConsumer =>
      lib.identity(request.consumer) != Some(a.consumer) || Namespace(a.actor) != Namespace(a.consumer)
    case BadActor => request.actor.Some? && lib.identity(request.actor.value).None?
    case OtherPurpose =>
      || (request.actor.Some? && lib.identity(request.actor.value) != Some(a.actor))
      || a.action != request.action
      || lib.identity(request.revision) != Some(a.revision)
    case BadDigest => !IsDigest(request.digest)
    case OtherContent =>
      || a.digest != request.digest
      || a.audience != "strathmark.shadow.v1"
      || forall role | role in a.roles :: role !in RolesOf(request.action)
    case _ => false
  }

  ghost predicate ClaimHas(claims: Claims, a: Attested, stamp: int, f: Fault) {
    match f
    case LateToClaim => a.expires <= stamp
    case Reused => Stands(claims, a, stamp)
    case NoRoom => |StandingOf(claims, a.consumer, stamp)| >= 4096
    case _ => false
  }

  ghost predicate Has(
      lib: Library, config: Config, request: Request, claims: Claims, now: int, stamp: int, f: Fault)
  {
    var read := Read(lib, config, request);
    || ServiceHas(lib, config, request, f)
    || AssertionHas(read, now, f)
    || (read.Some? && (ScopeHas(lib, request, read.value, f) || ClaimHas(claims, read.value, stamp, f)))
  }

  ghost predicate IsFirstFault(
      lib: Library, config: Config, request: Request, claims: Claims, now: int, stamp: int, f: Fault)
  {
    && Has(lib, config, request, claims, now, stamp, f)
    && forall g | Rank(g) < Rank(f) :: !Has(lib, config, request, claims, now, stamp, g)
  }

  lemma ServiceFaultFirst(lib: Library, config: Config, request: Request, f: Fault)
    requires Rank(f) <= 5 ==> ServiceHas(lib, config, request, f)
    requires forall g | Rank(g) < Rank(f) :: !ServiceHas(lib, config, request, g)
    ensures var key := ServiceCheck(lib, config, request);
            if Rank(f) <= 5 then key == Err(ErrorOf(f)) else key.Ok?
  {
    assert Rank(f) > 0 ==> !ServiceHas(lib, config, request, BadExpectation);
    assert Rank(f) > 1 ==> !ServiceHas(lib, config, request, NoSuchAction);
    assert Rank(f) > 2 ==> !ServiceHas(lib, config, request, NoCredentials);
    assert Rank(f) > 3 ==> !ServiceHas(lib, config, request, NoSuchToken);
    assert Rank(f) > 4 ==> !ServiceHas(lib, config, request, OthersToken);
    assert Rank(f) > 5 ==> !ServiceHas(lib, config, request, NoKeys);
  }

  function Timely(read: Option<Attested>, now: int): Result<Attested, AuthError> {
    if read.None? then Err(Invalid)
    else if read.value.issued > now + MAX_SKEW then Err(NotYetValid)
    else if read.value.expires <= now then Err(Expired)
    else if read.value.expires <= read.value.issued || read.value.expires - read.value.issued > MAX_LIFETIME then
      Err(BadLifetime)
    else Ok(read.value)
  }

  lemma PresentedIsTimely(lib: Library, config: Config, request: Request, now: int)
    requires ServiceCheck(lib, config, request).Ok?
    ensures Presented(lib, config, request, now) == Timely(Read(lib, config, request), now)
  {}

  lemma AssertionFaultFirst(read: Option<Attested>, now: int, f: Fault)
    requires 5 < Rank(f) && (Rank(f) <= 9 ==> AssertionHas(read, now, f))
    requires forall g | Rank(g) < Rank(f) :: !AssertionHas(read, now, g)
    ensures if Rank(f) <= 9 then Timely(read, now) == Err(ErrorOf(f)) else read.Some? && Timely(read, now) == Ok(read.value)
  {
    assert Rank(f) > 6 ==> !AssertionHas(read, now, BadAssertion);
    assert Rank(f) > 7 ==> !AssertionHas(read, now, TooEarly);
    assert Rank(f) > 8 ==> !AssertionHas(read, now, TooLate);
    assert Rank(f) > 9 ==> !AssertionHas(read, now, TooLong);
  }

  lemma ScopeFaultFirst(lib: Library, request: Request, a: Attested, f: Fault)
    requires lib.identity(request.consumer).Some? && lib.identity(request.revision).Some? && IsDigest(a.digest)
    requires 9 < Rank(f) && (Rank(f) <= 14 ==> ScopeHas(lib, request, a, f))
    requires forall g | Rank(g) < Rank(f) :: !ScopeHas(lib, request, a, g)
    ensures ScopeCheck(lib, request, a) == if Rank(f) <= 14 then Some(ErrorOf(f)) else None
  {
    assert Rank(f) > 10 ==> !ScopeHas(lib, request, a, OtherConsumer);
    assert Rank(f) > 11 ==> !ScopeHas(lib, request, a, BadActor);
    assert Rank(f) > 12 ==> !ScopeHas(lib, request, a, OtherPurpose);
    assert Rank(f) > 13 ==> !ScopeHas(lib, request, a, BadDigest);
    assert Rank(f) > 14 ==> !ScopeHas(lib, request, a, OtherContent);
  }

  lemma ClaimFaultFirst(claims: Claims, a: Attested, stamp: int, f: Fault)
    requires 14 < Rank(f) && ClaimHas(claims, a, stamp, f)
    requires forall g | Rank(g) < Rank(f) :: !ClaimHas(claims, a, stamp, g)
    ensures
      var (outcome, after) := Settle(claims, a.consumer, a.nonce, a.expires, stamp);
      Answer(a, outcome) == Err(ErrorOf(f))
  {
    assert Rank(f) > 15 ==> !ClaimHas(claims, a, stamp, LateToClaim);
    assert Rank(f) > 16 ==> !ClaimHas(claims, a, stamp, Reused);
    SettlesHonestly(claims, a, stamp);
  }

  /** A call by its stages: the service, the assertion, its scope, the claim. */
  lemma AskByStages(lib: Library, config: Config, request: Request, claims: Claims, now: int, stamp: int)
    ensures
      var (result, after) := Ask(lib, config, request, claims, now, stamp);
      var read := Read(lib, config, request);
      if ServiceCheck(lib, config, request).Err? then result == Err(ServiceCheck(lib, config, request).error)
      else if Timely(read, now).Err? then result == Err(Timely(read, now).error)
      else
        && read.Some? && IsDigest(read.value.digest)
        && lib.identity(request.consumer).Some? && lib.identity(request.revision).Some?
        && if ScopeCheck(lib, request, read.value).Some? then
             result == Err(ScopeCheck(lib, request, read.value).value)
           else
             var a := read.value;
             result == Answer(a, Settle(claims, a.consumer, a.nonce, a.expires, stamp).0)
  {
    if ServiceCheck(lib, config, request).Ok? {
      PresentedIsTimely(lib, config, request, now);
    }
  }

  lemma FaultsByStage(
      lib: Library, config: Config, request: Request, claims: Claims, now: int, stamp: int, f: Fault)
    requires IsFirstFault(lib, config, request, claims, now, stamp, f)
    ensures forall g | Rank(g) < Rank(f) :: !Has(lib, config, request, claims, now, stamp, g)
    ensures
      var read := Read(lib, config, request);
      if Rank(f) <= 5 then ServiceHas(lib, config, request, f)
      else if Rank(f) <= 9 then AssertionHas(read, now, f)
      else read.Some? && if Rank(f) <= 14 then ScopeHas(lib, request, read.value, f) else ClaimHas(claims, read.value, stamp, f)
  {}

  /** A call that has a fault is told its first one; a call that is let in has none. */
  lemma ErrorIsTheFirstFault(
      lib: Library, config: Config, request: Request, claims: Claims, now: int, stamp: int, f: Fault)
    ensures
      var result := Ask(lib, config, request, claims, now, stamp).0;
      && (IsFirstFault(lib, config, request, claims, now, stamp, f) ==> result == Err(ErrorOf(f)))
      && (Has(lib, config, request, claims, now, stamp, f) ==> result.Err?)
  {
    if IsFirstFault(lib, config, request, claims, now, stamp, f) {
      FirstFaultIsTold(lib, config, request, claims, now, stamp, f);
    }
    if Has(lib, config, request, claims, now, stamp, f) {
      FaultyIsRefused(lib, config, request, claims, now, stamp, f);
    }
  }

  lemma FirstFaultIsTold(
      lib: Library, config: Config, request: Request, claims: Claims, now: int, stamp: int, f: Fault)
    requires IsFirstFault(lib, config, request, claims, now, stamp, f)
    ensures Ask(lib, config, request, claims, now, stamp).0 == Err(ErrorOf(f))
  {
    var read := Read(lib, config, request);
    AskByStages(lib, config, request, claims, now, stamp);
    FaultsByStage(lib, config, request, claims, now, stamp, f);
    ServiceFaultFirst(lib, config, request, f);
    if Rank(f) > 5 {
      AssertionFaultFirst(read, now, f);
    }
    if Rank(f) > 9 {
      ScopeFaultFirst(lib, request, read.value, f);
    }
    if Rank(f) > 14 {
      ClaimFaultFirst(claims, read.value, stamp, f);
    }
  }

  lemma {:induction false} FaultyIsRefused(
      lib: Library, config: Config, request: Request, claims: Claims, now: int, stamp: int, f: Fault)
    requires Has(lib, config, request, claims, now, stamp, f)
    ensures Ask(lib, config, request, claims, now, stamp).0.Err?
    decreases Rank(f)
  {
    if IsFirstFault(lib, config, request, claims, now, stamp, f) {
      FirstFaultIsTold(lib, config, request, claims, now, stamp, f);
    } else {
      var g :| Rank(g) < Rank(f) && Has(lib, config, request, claims, now, stamp, g);
      FaultyIsRefused(lib, config, request, claims, now, stamp, g);
    }
  }

  // ---------------------------------------------------------------- from signing to acceptance

  /** A properly configured consumer that signs what it asks for is let in during the whole
      window of the assertion. */
  lemma SignedIsAuthorised(
      lib: Library, config: Config, request: Request, p: Payload, signed: int, now: int)
    requires Lawful(lib) && ServiceIsKnown(lib, config, request)
    requires
      var key := config.keys.value[lib.identity(request.consumer).value];
      Sign(lib, p, key, signed) == Ok(request.assertion)
    requires |lib.print_(p)| <= 6111 && Covers(lib, request, Structure(lib, p).value)
    ensures Authorises(lib, config, request, now) <==>
      InWindow(Structure(lib, p).value.issued, Structure(lib, p).value.expires, now)
  {
    PresentedIsSigned(lib, config, request, p, signed, now);
    ValidInOneWindow(lib, p, now);
  }

  lemma PresentedIsSigned(
      lib: Library, config: Config, request: Request, p: Payload, signed: int, now: int)
    requires Lawful(lib) && ServiceIsKnown(lib, config, request)
    requires
      var key := config.keys.value[lib.identity(request.consumer).value];
      Sign(lib, p, key, signed) == Ok(request.assertion)
    requires |lib.print_(p)| <= 6111
    ensures Presented(lib, config, request, now) == Validate(lib, p, now)
    ensures Structure(lib, p).Some?
    ensures Validate(lib, p, now).Ok? ==> Validate(lib, p, now).value == Structure(lib, p).value
  {
    var key := config.keys.value[lib.identity(request.consumer).value];
    SignedVerifies(lib, p, key, signed);
  }
}
