/** Delegated assertions of strathmark/auth.py: signing, decoding, validation and the
    authorisation that ends in one nonce claim. JSON text, the MAC, Python's str and the
    identity pattern are parameters. */
module Attestation {
  import opened Wrappers
  import opened Base64Url

  // ---------------------------------------------------------------- data

  /** A JSON value as far as the checks look into it. */
  datatype Field =
    | Text(s: string)
    | Number(n: int)
    | Items(items: seq<Field>)
    | OtherField(id: int)

  type Payload = map<string, Field>

  datatype Document = Object(payload: Payload) | NotAnObject

  /** print is the sorted, ASCII-only compact form; parse fails on what is no JSON; show is
      str(value or ""); identity strips a text and matches the namespaced pattern. */
  datatype Library = Library(
    print_: Payload -> seq<Byte>,
    parse: seq<Byte> -> Option<Document>,
    mac: (string, string) -> seq<Byte>,
    show: Field -> string,
    identity: string -> Option<string>)

  ghost predicate Lawful(lib: Library) {
    && (forall p :: lib.parse(lib.print_(p)) == Some(Object(p)))
    && (forall p :: |lib.print_(p)| >= 2)
    && (forall key, text :: |lib.mac(key, text)| == 32)
  }

  datatype Attested = Attested(
    consumer: string, actor: string, roles: seq<string>, action: string, revision: string,
    digest: string, audience: string, nonce: string, issued: int, expires: int)

  datatype AuthError =
    | UnsupportedAction
    | BadCredential
    | WrongConsumer
    | Misconfigured
    | Invalid
    | NotYetValid
    | Expired
    | BadLifetime
    | OutOfScope
    | MalformedExpectation
    | LateClaim
    | LedgerFull
    | Replayed

  const FIELDS: set<string> := {
    "schema_version", "consumer_id", "actor_id", "roles", "action", "subject_revision",
    "request_digest_schema_version", "request_digest", "audience", "nonce", "issued_at", "expires_at"}

  const SCHEMA_VERSION := "strathmark.actor-attestation.v2"
  const DIGEST_SCHEMA_VERSION := "strathmark.shadow-request-digest.v1"
  const AUDIENCE := "strathmark.shadow.v1"
  const MAX_LIFETIME := 60
  const MAX_SKEW := 5
  const MAX_ACTIVE := 4096

  function RolesOf(action: string): (r: set<string>) {
    if action in {"shadow.calculate", "shadow.receipt.lookup", "shadow.status.read", "shadow.drift.read"} then
      {"admin", "judge"}
    else if action == "shadow.outcome.apply" then {"admin", "judge", "system-adapter"}
    else if action == "shadow.mirror.replay" then {"admin"}
    else {}
  }

  predicate KnownAction(action: string) {
    RolesOf(action) != {}
  }

  const ALLOWED_ROLES: set<string> := {"admin", "judge", "system-adapter"}

  predicate IsNonce(s: string) {
    16 <= |s| <= 128 && forall i | 0 <= i < |s| ::
      'A' <= s[i] <= 'Z' || 'a' <= s[i] <= 'z' || '0' <= s[i] <= '9' || s[i] in {'.', '_', ':', '-'}
  }

  predicate IsDigest(s: string) {
    |s| == 64 && forall i | 0 <= i < |s| :: '0' <= s[i] <= '9' || 'a' <= s[i] <= 'f'
  }

  predicate Ascii(s: string) {
    forall i | 0 <= i < |s| :: s[i] < 128 as char
  }

  predicate IsSecret(s: string) {
    16 <= |s| <= 4096 && Ascii(s)
  }

  // ---------------------------------------------------------------- validation

  function RoleNames(items: seq<Field>): Option<seq<string>> {
    if items == [] then Some([])
    else
      var rest := RoleNames(items[1..]);
      if rest.None? || !items[0].Text? || items[0].s !in ALLOWED_ROLES then None
      else Some([items[0].s] + rest.value)
  }

  predicate NoRepeats(names: seq<string>) {
    forall i, j | 0 <= i < j < |names| :: names[i] != names[j]
  }

  /** Everything about the payload that does not depend on the clock. */
  function Structure(lib: Library, p: Payload): Option<Attested> {
    if p.Keys != FIELDS || p["schema_version"] != Text(SCHEMA_VERSION) then None
    else
      var consumer := lib.identity(lib.show(p["consumer_id"]));
      var actor := lib.identity(lib.show(p["actor_id"]));
      var revision := lib.identity(lib.show(p["subject_revision"]));
      var digest := lib.show(p["request_digest"]);
      if consumer.None? || actor.None? || revision.None? || !IsDigest(digest) then None
      else if !p["roles"].Items? || !(1 <= |p["roles"].items| <= 8) then None
      else
        var roles := RoleNames(p["roles"].items);
        if roles.None? || !NoRepeats(roles.value) then None
        else if !p["action"].Text? || !KnownAction(p["action"].s) then None
        else if p["request_digest_schema_version"] != Text(DIGEST_SCHEMA_VERSION) then None
        else if !p["audience"].Text? || !(1 <= |p["audience"].s| <= 128) then None
        else if !p["nonce"].Text? || !IsNonce(p["nonce"].s) then None
        else if !p["issued_at"].Number? || !p["expires_at"].Number? then None
        else Some(Attested(consumer.value, actor.value, roles.value, p["action"].s, revision.value,
                           digest, p["audience"].s, p["nonce"].s, p["issued_at"].n, p["expires_at"].n))
  }

  predicate AllowedRole(f: Field) {
    f.Text? && f.s in ALLOWED_ROLES
  }

  lemma {:induction false} RolesAreAllowed(items: seq<Field>)
    ensures RoleNames(items).Some? <==> forall i | 0 <= i < |items| :: AllowedRole(items[i])
    ensures RoleNames(items).Some? ==>
      |RoleNames(items).value| == |items| && forall i | 0 <= i < |items| :: items[i] == Text(RoleNames(items).value[i])
  {
    if items != [] {
      RolesAreAllowed(items[1..]);
      assert forall i | 0 < i < |items| :: items[i] == items[1..][i - 1];
    }
  }

  // ---------------------------------------------------------------- the texts of an assertion

  ghost predicate NonceLike(s: string) {
    16 <= |s| <= 128 && forall c | c in s :: c in ALPHABET || c == '.' || c == ':'
  }

  /** A nonce is of 16 to 128 of the characters A-Z a-z 0-9 . _ : - */
  lemma NonceIff(s: string)
    ensures IsNonce(s) <==> NonceLike(s)
  {
    forall i | 0 <= i < |s|
      ensures ('A' <= s[i] <= 'Z' || 'a' <= s[i] <= 'z' || '0' <= s[i] <= '9' || s[i] in {'.', '_', ':', '-'})
         <==> (s[i] in ALPHABET || s[i] == '.' || s[i] == ':')
    {
      InAlphabetIff(s[i]);
    }
    assert forall c | c in s :: exists i :: 0 <= i < |s| && s[i] == c;
  }

  ghost predicate DigestLike(s: string) {
    |s| == 64 && forall c | c in s :: c in "0123456789" || c in "abcdef"
  }

  /** A digest is of 64 lower-case hexadecimal digits. */
  lemma DigestIff(s: string)
    ensures IsDigest(s) <==> DigestLike(s)
  {
    forall i | 0 <= i < |s|
      ensures ('0' <= s[i] <= '9' || 'a' <= s[i] <= 'f') <==> (s[i] in "0123456789" || s[i] in "abcdef")
    {
      HexDigitIff(s[i]);
    }
    assert forall c | c in s :: exists i :: 0 <= i < |s| && s[i] == c;
  }

  lemma HexDigitIff(c: char)
    ensures '0' <= c <= '9' <==> c in "0123456789"
    ensures 'a' <= c <= 'f' <==> c in "abcdef"
  {
    var digits, letters := "0123456789", "abcdef";
    if '0' <= c <= '9' {
      assert digits[(c - '0') as nat] == c;
    }
    if 'a' <= c <= 'f' {
      assert letters[(c - 'a') as nat] == c;
    }
  }

  /** Who may do what: an admin everything, a judge everything but mirror replay, the adapter
      only applies outcomes; nothing else is an action. */
  lemma RolesByAction(action: string, role: string)
    ensures role in RolesOf(action) <==>
      || (role == "admin" && IsAction(action))
      || (role == "judge" && IsAction(action) && action != "shadow.mirror.replay")
      || (role == "system-adapter" && action == "shadow.outcome.apply")
    ensures KnownAction(action) <==> IsAction(action)
  {
    assert IsAction(action) ==> "admin" in RolesOf(action);
  }

  predicate IsAction(action: string) {
    || action == "shadow.calculate" || action == "shadow.receipt.lookup" || action == "shadow.status.read"
    || action == "shadow.outcome.apply" || action == "shadow.mirror.replay" || action == "shadow.drift.read"
  }

  /** What the payload must be for the assertion it carries to be this one. */
  ghost predicate Carries(lib: Library, p: Payload, a: Attested) {
    && p.Keys == {"schema_version", "consumer_id", "actor_id", "roles", "action", "subject_revision", "request_digest",
                  "request_digest_schema_version", "audience", "nonce", "issued_at", "expires_at"}
    && p["schema_version"] == Text("strathmark.actor-attestation.v2")
    && p["request_digest_schema_version"] == Text("strathmark.shadow-request-digest.v1")
    && lib.identity(lib.show(p["consumer_id"])) == Some(a.consumer)
    && lib.identity(lib.show(p["actor_id"])) == Some(a.actor)
    && lib.identity(lib.show(p["subject_revision"])) == Some(a.revision)
    && lib.show(p["request_digest"]) == a.digest && DigestLike(a.digest)
    && p["roles"].Items? && |p["roles"].items| == |a.roles| && 1 <= |a.roles| <= 8
    && (forall i | 0 <= i < |a.roles| :: p["roles"].items[i] == Text(a.roles[i])
                                          && a.roles[i] in {"admin", "judge", "system-adapter"})
    && (forall i, j | 0 <= i < |a.roles| && 0 <= j < |a.roles| && a.roles[i] == a.roles[j] :: i == j)
    && p["action"] == Text(a.action) && IsAction(a.action)
    && p["audience"] == Text(a.audience) && 1 <= |a.audience| <= 128
    && p["nonce"] == Text(a.nonce) && NonceLike(a.nonce)
    && p["issued_at"] == Number(a.issued) && p["expires_at"] == Number(a.expires)
  }

  /** Validation reads an assertion out of a payload exactly when every field is as required,
      and loses nothing. */
  lemma StructureIff(lib: Library, p: Payload, a: Attested)
    ensures Structure(lib, p) == Some(a) <==> Carries(lib, p, a)
  {
    NonceIff(a.nonce);
    DigestIff(a.digest);
    RolesByAction(a.action, "admin");
    if p.Keys == FIELDS && p["roles"].Items? {
      RolesAreAllowed(p["roles"].items);
      var names := RoleNames(p["roles"].items);
      if Carries(lib, p, a) {
        assert forall i | 0 <= i < |a.roles| :: AllowedRole(p["roles"].items[i]);
        assert names.value == a.roles;
      }
      if Structure(lib, p) == Some(a) {
        assert forall i | 0 <= i < |a.roles| :: AllowedRole(p["roles"].items[i]);
      }
    }
  }

  function Validate(lib: Library, p: Payload, now: int): Result<Attested, AuthError> {
    var a := Structure(lib, p);
    if a.None? then Err(Invalid)
    else if a.value.issued > now + MAX_SKEW then Err(NotYetValid)
    else if a.value.expires <= now then Err(Expired)
    else if a.value.expires <= a.value.issued || a.value.expires - a.value.issued > MAX_LIFETIME then Err(BadLifetime)
    else Ok(a.value)
  }

  /** The instants at which an assertion can be accepted. */
  predicate InWindow(issued: int, expires: int, now: int) {
    issued - MAX_SKEW <= now < expires <= issued + MAX_LIFETIME && issued < expires
  }

  /** An assertion is valid during one interval of at most 65 seconds and never again. */
  lemma ValidInOneWindow(lib: Library, p: Payload, now: int)
    ensures Validate(lib, p, now).Ok? <==>
      Structure(lib, p).Some? && InWindow(Structure(lib, p).value.issued, Structure(lib, p).value.expires, now)
    ensures forall later | Validate(lib, p, now).Ok? && Validate(lib, p, later).Ok? ::
      -(MAX_LIFETIME + MAX_SKEW) < later - now < MAX_LIFETIME + MAX_SKEW
    ensures forall t, later | t <= now <= later && Validate(lib, p, t).Ok? && Validate(lib, p, later).Ok? ::
      Validate(lib, p, now).Ok?
  {}

  // ---------------------------------------------------------------- signing and decoding

  function Seal(lib: Library, p: Payload, key: string): string {
    var body := B64Encode(lib.print_(p));
    body + "." + B64Encode(lib.mac(key, body))
  }

  function Sign(lib: Library, p: Payload, key: string, now: int): Result<string, AuthError> {
    if !IsSecret(key) then Err(Misconfigured)
    else
      var a := Validate(lib, p, now);
      if a.Err? then Err(a.error)
      else if a.value.audience != AUDIENCE then Err(OutOfScope)
      else Ok(Seal(lib, p, key))
  }

  /** Signing wants an ASCII key of 16 to 4096 characters and a payload that is valid now for
      this audience; what is signed is the canonical payload and its MAC around a dot. */
  lemma SignsIff(lib: Library, p: Payload, key: string, now: int)
    ensures
      var body := B64Encode(lib.print_(p));
      && (Sign(lib, p, key, now).Ok? <==>
            && 16 <= |key| <= 4096 && (forall i | 0 <= i < |key| :: key[i] as int < 128)
            && Validate(lib, p, now).Ok? && Validate(lib, p, now).value.audience == "strathmark.shadow.v1")
      && (Sign(lib, p, key, now).Ok? ==> Sign(lib, p, key, now).value == body + "." + B64Encode(lib.mac(key, body)))
  {}

  function Dots(s: string): nat {
    if s == "" then 0 else (if s[0] == '.' then 1 else 0) + Dots(s[1..])
  }

  function BeforeDot(s: string): (r: string)
    ensures |r| <= |s|
    ensures Dots(s) > 0 ==> |r| < |s| && s == r + "." + s[|r| + 1..]
  {
    if s == "" || s[0] == '.' then "" else [s[0]] + BeforeDot(s[1..])
  }

  function DecodeAndVerify(lib: Library, text: string, key: string): Option<Payload> {
    if !(32 <= |text| <= 8192) || Dots(text) != 1 then None
    else
      var body := BeforeDot(text);
      var bytes, supplied := B64Decode(body), B64Decode(text[|body| + 1..]);
      if bytes.None? || supplied.None? || supplied.value != lib.mac(key, body) then None
      else
        match lib.parse(bytes.value)
        case Some(Object(p)) => if body == B64Encode(lib.print_(p)) then Some(p) else None
        case _ => None
  }

  lemma {:induction false} SplitAtDot(body: string, rest: string)
    requires InAlphabet(body) && InAlphabet(rest)
    ensures Dots(body + "." + rest) == 1 && BeforeDot(body + "." + rest) == body
  {
    var s := body + "." + rest;
    if body == "" {
      assert s[0] == '.' && s[1..] == rest;
      NoDots(rest);
    } else {
      SplitAtDot(body[1..], rest);
      NotADot(body[0]);
      assert s[0] == body[0] && s[1..] == body[1..] + "." + rest;
      assert [body[0]] + body[1..] == body;
    }
  }

  lemma NotADot(c: char)
    requires ValueOf(c).Some?
    ensures c != '.'
  {}

  lemma {:induction false} NoDots(s: string)
    requires InAlphabet(s)
    ensures Dots(s) == 0
  {
    if s != "" {
      NotADot(s[0]);
      NoDots(s[1..]);
    }
  }

  /** Exactly the accepted texts: the canonical encoding of the payload, a dot, and a text
      that decodes to its MAC. */
  lemma AcceptedIff(lib: Library, text: string, key: string, p: Payload)
    requires Lawful(lib)
    ensures DecodeAndVerify(lib, text, key) == Some(p) <==>
      && 32 <= |text| <= 8192
      && IsSealOf(lib, text, key, p)
  {
    var body := B64Encode(lib.print_(p));
    RoundTrip(lib.print_(p));
    if IsSealOf(lib, text, key, p) {
      var rest := text[|body| + 1..];
      DecodesIff(rest);
      DecodesIff(body);
      SplitAtDot(body, rest);
    }
  }

  ghost predicate IsSealOf(lib: Library, text: string, key: string, p: Payload) {
    var body := B64Encode(lib.print_(p));
    && |body| < |text|
    && text == body + "." + text[|body| + 1..]
    && B64Decode(text[|body| + 1..]) == Some(lib.mac(key, body))
  }

  /** Two accepted texts that carry the same payload carry it in the same characters. */
  lemma PayloadTextIsUnique(lib: Library, text: string, other: string, key: string)
    requires Lawful(lib)
    requires DecodeAndVerify(lib, text, key).Some?
    requires DecodeAndVerify(lib, other, key) == DecodeAndVerify(lib, text, key)
    ensures BeforeDot(text) == BeforeDot(other)
  {}

  /** A freshly signed assertion verifies to the signed payload exactly when its printed
      payload is at most 6111 bytes long; nothing signed is too short. */
  lemma SignedVerifies(lib: Library, p: Payload, key: string, now: int)
    requires Lawful(lib) && Sign(lib, p, key, now).Ok?
    ensures DecodeAndVerify(lib, Sign(lib, p, key, now).value, key)
            == if |lib.print_(p)| <= 6111 then Some(p) else None
  {
    var body := B64Encode(lib.print_(p));
    var mac := lib.mac(key, body);
    var text := Seal(lib, p, key);
    EncodeDropsPadding(lib.print_(p));
    EncodeDropsPadding(mac);
    RoundTrip(mac);
    assert text[|body| + 1..] == B64Encode(mac);
    assert |text| == (4 * |lib.print_(p)| + 2) / 3 + 44;
    assert IsSealOf(lib, text, key, p);
    if |lib.print_(p)| <= 6111 {
      AcceptedIff(lib, text, key, p);
    }
  }
}
