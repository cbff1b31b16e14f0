/** The text whose SHA-256 is the digest of a request (strathmark/auth.py), and which requests
    share it. */
module DigestText {
  import opened Wrappers
  import opened Ordering
  import opened CanonicalJson
  import opened Utf16
  import opened JsonText

  /** The interpreter refuses to write an integer of more digits. */
  const INT_DIGITS: nat := 4300

  /** Every integer of the document can be written. */
  predicate Writable(j: Json) {
    match j
    case Whole(n) => |Digits(if n < 0 then -n else n)| <= INT_DIGITS
    case Array(items) => forall i | 0 <= i < |items| :: Writable(items[i])
    case Object(members) => forall i | 0 <= i < |members| :: Writable(members[i].value)
    case _ => true
  }

  /** None where the source raises. */
  function TextOf(version: PyStr, payload: Value, fraction: real -> string): Option<string> {
    match Envelope(version, payload)
    case None => None
    case Some(j) => if Writable(j) then Some(Print(j, fraction)) else None
  }

  // ---------------------------------------------------------------- which requests have a text

  function PowerOfTen(k: nat): int {
    if k == 0 then 1 else 10 * PowerOfTen(k - 1)
  }

  lemma {:induction false} DigitsBelowPower(n: nat, k: nat)
    requires k > 0
    ensures |Digits(n)| <= k <==> n < PowerOfTen(k)
  {
    if n < 10 {
      PowersGrow(k);
    } else if k > 1 {
      DigitsBelowPower(n / 10, k - 1);
    } else {
      assert PowerOfTen(0) == 1;
    }
  }

  lemma {:induction false} PowersGrow(k: nat)
    requires k > 0
    ensures PowerOfTen(k) >= 10
  {
    if k > 1 {
      PowersGrow(k - 1);
    } else {
      assert PowerOfTen(0) == 1;
    }
  }

  /** The integer occurs somewhere in the document. */
  ghost predicate Occurs(n: int, j: Json) {
    match j
    case Whole(m) => m == n
    case Array(items) => exists i :: 0 <= i < |items| && Occurs(n, items[i])
    case Object(members) => exists i :: 0 <= i < |members| && Occurs(n, members[i].value)
    case _ => false
  }

  ghost predicate Below(j: Json, bound: int) {
    forall n | Occurs(n, j) :: -bound < n < bound
  }

  lemma BelowInArray(items: seq<Json>, bound: int)
    ensures Below(Array(items), bound) <==> forall i | 0 <= i < |items| :: Below(items[i], bound)
  {
    if Below(Array(items), bound) {
      forall i | 0 <= i < |items| ensures Below(items[i], bound) {
        assert forall n | Occurs(n, items[i]) :: Occurs(n, Array(items));
      }
    } else {
      var n :| Occurs(n, Array(items)) && !(-bound < n < bound);
      var i :| 0 <= i < |items| && Occurs(n, items[i]);
      assert !Below(items[i], bound);
    }
  }

  lemma BelowInObject(members: seq<Member>, bound: int)
    ensures Below(Object(members), bound) <==> forall i | 0 <= i < |members| :: Below(members[i].value, bound)
  {
    if Below(Object(members), bound) {
      forall i | 0 <= i < |members| ensures Below(members[i].value, bound) {
        assert forall n | Occurs(n, members[i].value) :: Occurs(n, Object(members));
      }
    } else {
      var n :| Occurs(n, Object(members)) && !(-bound < n < bound);
      var i :| 0 <= i < |members| && Occurs(n, members[i].value);
      assert !Below(members[i].value, bound);
    }
  }

  lemma {:induction false} WritableIff(j: Json, limit: nat)
    requires limit == 4300
    ensures Writable(j) <==> Below(j, PowerOfTen(limit))
    decreases j
  {
    match j
    case Whole(n) =>
      DigitsBelowPower(if n < 0 then -n else n, limit);
      assert Occurs(n, j);
    case Array(items) =>
      forall i | 0 <= i < |items|
        ensures Writable(items[i]) <==> Below(items[i], PowerOfTen(limit))
      {
        WritableIff(items[i], limit);
      }
      BelowInArray(items, PowerOfTen(limit));
    case Object(members) =>
      forall i | 0 <= i < |members|
        ensures Writable(members[i].value) <==> Below(members[i].value, PowerOfTen(limit))
      {
        WritableIff(members[i].value, limit);
      }
      BelowInObject(members, PowerOfTen(limit));
    case _ =>
  }

  /** A request has a text exactly when it is a dictionary without an offence and no integer of
      its envelope has more than 4300 digits; the text is then the envelope's. */
  lemma TextIff(version: PyStr, payload: Value, fraction: real -> string, limit: nat)
    requires limit == 4300
    ensures
      var text := TextOf(version, payload, fraction);
      && (text.None? <== !payload.Dict? || HasOffence(payload))
      && (payload.Dict? && !HasOffence(payload) ==>
            && Envelope(version, payload).Some?
            && (text.Some? <==> Below(Envelope(version, payload).value, PowerOfTen(limit))))
      && (text.Some? ==> text.value == Print(Envelope(version, payload).value, fraction))
  {
    RefusedIffOffence(payload);
    if Envelope(version, payload).Some? {
      WritableIff(Envelope(version, payload).value, limit);
    }
  }

  // ---------------------------------------------------------------- payloads without surrogate pairs

  /** No string and no key of the payload has a high surrogate directly followed by a low one. */
  ghost predicate PairFreeValue(v: Value) {
    match v
    case Str(t) => !HasPair(t)
    case List(items) => forall i | 0 <= i < |items| :: PairFreeValue(items[i])
    case Tuple(items) => forall i | 0 <= i < |items| :: PairFreeValue(items[i])
    case Dict(entries) =>
      forall i | 0 <= i < |entries| ::
        (entries[i].key.StrKey? ==> !HasPair(entries[i].key.s)) && PairFreeValue(entries[i].value)
    case _ => true
  }

  lemma {:induction false} NormaliseKeepsPairFree(v: Value)
    requires Normalise(v).Some? && PairFreeValue(v)
    ensures PairFree(Normalise(v).value)
    decreases v
  {
    match v
    case List(items) =>
      forall i | 0 <= i < |items| ensures PairFree(Normalise(items[i]).value) {
        NormaliseKeepsPairFree(items[i]);
      }
    case Tuple(items) =>
      forall i | 0 <= i < |items| ensures PairFree(Normalise(items[i]).value) {
        NormaliseKeepsPairFree(items[i]);
      }
    case Dict(entries) =>
      var members := Normalise(v).value.members;
      forall i | 0 <= i < |members| ensures !HasPair(members[i].name) && PairFree(members[i].value) {
        assert NormaliseEntry(entries[i]) == Some(members[i]);
        NormaliseKeepsPairFree(entries[i].value);
      }
    case _ =>
  }

  lemma ByNameKeepsPairFree(members: seq<Member>)
    requires PairFree(Object(members))
    ensures PairFree(Object(ByName(members)))
  {
    SortedNamesExist(members);
    forall k | 0 <= k < |members| ensures !HasPair(ByName(members)[k].name) && PairFree(ByName(members)[k].value) {
      var i := ValueIsListed(members, ByName(members)[k].name);
    }
  }

  lemma {:induction false} CanonicalKeepsPairFree(j: Json)
    requires PairFree(j)
    ensures PairFree(Canonical(j))
    decreases j
  {
    match j
    case Array(items) =>
      forall i | 0 <= i < |items| ensures PairFree(Canonical(items[i])) {
        CanonicalKeepsPairFree(items[i]);
      }
    case Object(members) =>
      forall i | 0 <= i < |members| ensures PairFree(Canonical(members[i].value)) {
        CanonicalKeepsPairFree(members[i].value);
      }
      ByNameKeepsPairFree(CanonicalMembers(members));
      CanonicalObject(j);
    case _ =>
  }

  lemma LiteralHasNoPair(s: string)
    ensures !HasPair(Codes(s))
  {
    forall i ensures !PairAt(Codes(s), i) {
      assert 0 <= i < |s| ==> Codes(s)[i] == s[i] as int;
    }
  }

  lemma EnvelopeIsPairFree(version: PyStr, payload: Value)
    requires Envelope(version, payload).Some? && !HasPair(version) && PairFreeValue(payload)
    ensures PairFree(Envelope(version, payload).value)
  {
    NormaliseKeepsPairFree(payload);
    LiteralHasNoPair("schema_version");
    LiteralHasNoPair("payload");
    CanonicalKeepsPairFree(Wrapped(Text(version), Normalise(payload).value));
  }

  // ---------------------------------------------------------------- which requests share their text

  ghost predicate Compared(version: PyStr, a: Value, b: Value, fraction: real -> string, known: set<real>) {
    && Dictionary(a) && Dictionary(b)
    && TextOf(version, a, fraction).Some? && TextOf(version, b, fraction).Some? && Tells(fraction, known)
    && Among(Envelope(version, a).value, known) && Among(Envelope(version, b).value, known)
  }

  /** Two accepted requests are hashed from the same text exactly when their sorted envelopes are
      read back as the same document. */
  lemma EqualTextsIffReadAlike(version: PyStr, a: Value, b: Value, fraction: real -> string, known: set<real>)
    requires Compared(version, a, b, fraction, known)
    ensures TextOf(version, a, fraction) == TextOf(version, b, fraction) <==>
            ReadBack(Envelope(version, a).value) == ReadBack(Envelope(version, b).value)
  {
    PrintsAlikeIff(Envelope(version, a).value, Envelope(version, b).value, fraction, known);
  }

  /** Requests without surrogate pairs are hashed from the same text exactly when they agree up to
      list or tuple, whole float or integer, and key order. */
  lemma EqualTextsIffAgree(version: PyStr, a: Value, b: Value, fraction: real -> string, known: set<real>)
    requires Compared(version, a, b, fraction, known)
    requires !HasPair(version) && PairFreeValue(a) && PairFreeValue(b)
    ensures TextOf(version, a, fraction) == TextOf(version, b, fraction) <==> Agree(a, b)
  {
    EqualTextsIffReadAlike(version, a, b, fraction, known);
    EnvelopeIsPairFree(version, a);
    EnvelopeIsPairFree(version, b);
    ReadBackIff(Envelope(version, a).value);
    ReadBackIff(Envelope(version, b).value);
    EqualEnvelopesIffAgree(version, a, b);
  }

  /** Agreement is enough for equal texts, pairs or not. */
  lemma AgreeingTextsAreEqual(version: PyStr, a: Value, b: Value, fraction: real -> string)
    requires Dictionary(a) && Dictionary(b) && Agree(a, b)
    requires TextOf(version, a, fraction).Some? && TextOf(version, b, fraction).Some?
    ensures TextOf(version, a, fraction) == TextOf(version, b, fraction)
  {
    EqualEnvelopesIffAgree(version, a, b);
  }

  // ---------------------------------------------------------------- what a pair does

  /** The payload with one key and one string. */
  function Single(key: PyStr, t: PyStr): Value {
    Dict([Entry(StrKey(key), Str(t))])
  }

  function SingleJson(key: PyStr, t: PyStr): Json {
    Object([Member(key, Text(t))])
  }

  lemma SingleNormalises(key: PyStr, t: PyStr)
    ensures Normalise(Single(key, t)) == Some(SingleJson(key, t)) && Dictionary(Single(key, t))
  {
    var entries := [Entry(StrKey(key), Str(t))];
    var r := NormaliseEntries(entries);
    assert NormaliseEntry(entries[0]) == Some(Member(key, Text(t)));
    assert r.Some? && r.value.members == [r.value.members[0]];
  }

  lemma SingleIsCanonical(key: PyStr, t: PyStr)
    ensures Canonical(SingleJson(key, t)) == SingleJson(key, t)
  {
    var members := [Member(key, Text(t))];
    assert CanonicalMember(members[0]) == members[0];
    assert CanonicalMembers(members) == members;
    assert Names(members) == [key] && [key][1..] == [];
    assert Sort([key], PyStrLe) == [key];
    assert ByName(members) == members;
  }

  function EnvelopeNames(): seq<PyStr> {
    Sort([VERSION_KEY, PAYLOAD_KEY], PyStrLe)
  }

  lemma EnvelopeHasBothNames() returns (k: nat)
    ensures |EnvelopeNames()| == 2 && k < 2 && EnvelopeNames()[k] == PAYLOAD_KEY
    ensures forall i | 0 <= i < 2 :: EnvelopeNames()[i] == VERSION_KEY || EnvelopeNames()[i] == PAYLOAD_KEY
  {
    var names, sorted := [VERSION_KEY, PAYLOAD_KEY], EnvelopeNames();
    assert PAYLOAD_KEY in multiset(sorted) by {
      assert names[1] in multiset(names);
    }
    forall i | 0 <= i < 2 ensures sorted[i] == VERSION_KEY || sorted[i] == PAYLOAD_KEY {
      assert sorted[i] in multiset(sorted);
      assert sorted[i] in names;
    }
    k :| 0 <= k < 2 && sorted[k] == PAYLOAD_KEY;
  }

  /** Under these names: the version under its own, the payload under the other. */
  ghost predicate Filled(members: seq<Member>, names: seq<PyStr>, version: PyStr, p: Json) {
    && |members| == |names|
    && forall k | 0 <= k < |names| ::
         members[k] == Member(names[k], if names[k] == VERSION_KEY then Text(version) else p)
  }

  /** The sorted envelope around a payload: the same names in the same places, whatever it is. */
  lemma EnvelopeMembers(version: PyStr, p: Json)
    requires Canonical(p) == p
    ensures Canonical(Wrapped(Text(version), p)).Object?
    ensures Filled(Canonical(Wrapped(Text(version), p)).members, EnvelopeNames(), version, p)
  {
    var wrapped := [Member(VERSION_KEY, Text(version)), Member(PAYLOAD_KEY, p)];
    CanonicalObject(Wrapped(Text(version), p));
    assert CanonicalMember(wrapped[0]) == wrapped[0] && CanonicalMember(wrapped[1]) == wrapped[1];
    assert CanonicalMembers(wrapped) == wrapped;
    assert Names(wrapped) == [VERSION_KEY, PAYLOAD_KEY];
    SortedNamesExist(wrapped);
    KeysDiffer();
    forall k | 0 <= k < 2
      ensures ByName(wrapped)[k].value == if EnvelopeNames()[k] == VERSION_KEY then Text(version) else p
    {
      var i := ValueIsListed(wrapped, EnvelopeNames()[k]);
    }
  }

  lemma {:induction false} ReadMembersAt(members: seq<Member>)
    ensures |ReadMembers(members)| == |members|
    ensures forall k | 0 <= k < |members| :: ReadMembers(members)[k] == ReadMember(members[k])
  {
    if members != [] {
      ReadMembersAt(members[1..]);
      assert forall k | 0 < k < |members| :: members[k] == members[1..][k - 1];
    }
  }

  lemma FilledReadAlikeIff(
      xs: seq<Member>, ys: seq<Member>, names: seq<PyStr>, version: PyStr, p: Json, q: Json, k: nat)
    requires Filled(xs, names, version, p) && Filled(ys, names, version, q)
    requires k < |names| && names[k] != VERSION_KEY
    ensures ReadMembers(xs) == ReadMembers(ys) <==> ReadBack(p) == ReadBack(q)
  {
    ReadMembersAt(xs);
    ReadMembersAt(ys);
    assert ReadMembers(xs)[k].value == ReadBack(p) && ReadMembers(ys)[k].value == ReadBack(q);
    if ReadBack(p) == ReadBack(q) {
      forall i | 0 <= i < |names| ensures ReadMembers(xs)[i] == ReadMembers(ys)[i] {}
      assert ReadMembers(xs) == ReadMembers(ys);
    }
  }

  lemma EnvelopesReadAlikeIff(version: PyStr, p: Json, q: Json)
    requires Canonical(p) == p && Canonical(q) == q
    ensures ReadBack(Canonical(Wrapped(Text(version), p))) == ReadBack(Canonical(Wrapped(Text(version), q)))
       <==> ReadBack(p) == ReadBack(q)
  {
    EnvelopeMembers(version, p);
    EnvelopeMembers(version, q);
    KeysDiffer();
    var k := EnvelopeHasBothNames();
    FilledReadAlikeIff(Canonical(Wrapped(Text(version), p)).members, Canonical(Wrapped(Text(version), q)).members,
                       EnvelopeNames(), version, p, q, k);
  }

  /** A document of strings only: it can be written whatever fractions look like. */
  ghost predicate Wordy(j: Json) {
    Writable(j) && Among(j, {})
  }

  lemma FilledIsWordy(members: seq<Member>, names: seq<PyStr>, version: PyStr, p: Json)
    requires Filled(members, names, version, p) && Wordy(p)
    ensures Wordy(Object(members))
  {
    forall k | 0 <= k < |members| ensures Wordy(members[k].value) {
      TextIsWordy(version);
    }
  }

  lemma TextIsWordy(t: PyStr)
    ensures Wordy(Text(t))
  {}

  lemma SingleIsWordy(key: PyStr, t: PyStr)
    ensures Wordy(SingleJson(key, t))
  {
    TextIsWordy(t);
  }

  lemma SinglesAreCompared(version: PyStr, key: PyStr, t: PyStr, fraction: real -> string)
    ensures Envelope(version, Single(key, t)) == Some(Canonical(Wrapped(Text(version), SingleJson(key, t))))
    ensures TextOf(version, Single(key, t), fraction).Some?
    ensures Among(Envelope(version, Single(key, t)).value, {})
  {
    SingleNormalises(key, t);
    SingleIsCanonical(key, t);
    EnvelopeMembers(version, SingleJson(key, t));
    SingleIsWordy(key, t);
    FilledIsWordy(Canonical(Wrapped(Text(version), SingleJson(key, t))).members, EnvelopeNames(), version, SingleJson(key, t));
  }

  lemma SinglesReadAlikeIff(key: PyStr, t: PyStr, u: PyStr)
    ensures ReadBack(SingleJson(key, t)) == ReadBack(SingleJson(key, u)) <==> Reread(t) == Reread(u)
  {
    ReadMembersAt([Member(key, Text(t))]);
    ReadMembersAt([Member(key, Text(u))]);
    var x, y := ReadMembers([Member(key, Text(t))]), ReadMembers([Member(key, Text(u))]);
    assert x == [x[0]] && x[0] == ReadMember(Member(key, Text(t)));
    assert y == [y[0]] && y[0] == ReadMember(Member(key, Text(u)));
  }

  /** Two payloads that differ in one string are hashed from the same text exactly when the two
      strings are read alike. */
  lemma SinglesShareTextIff(version: PyStr, key: PyStr, t: PyStr, u: PyStr, fraction: real -> string)
    ensures TextOf(version, Single(key, t), fraction) == TextOf(version, Single(key, u), fraction)
       <==> Reread(t) == Reread(u)
  {
    SinglesAreCompared(version, key, t, fraction);
    SinglesAreCompared(version, key, u, fraction);
    SingleNormalises(key, t);
    SingleNormalises(key, u);
    SingleIsCanonical(key, t);
    SingleIsCanonical(key, u);
    EqualTextsIffReadAlike(version, Single(key, t), Single(key, u), fraction, {});
    EnvelopesReadAlikeIff(version, SingleJson(key, t), SingleJson(key, u));
    SinglesReadAlikeIff(key, t, u);
  }

  lemma SinglesAgreeIff(key: PyStr, t: PyStr, u: PyStr)
    ensures Agree(Single(key, t), Single(key, u)) <==> t == u
  {
    var a, b := [Entry(StrKey(key), Str(t))], [Entry(StrKey(key), Str(u))];
    AgreeUnfolds(Dict(a), Dict(b));
    assert HasKey(a, a[0].key) && HasKey(b, b[0].key);
    assert a[0].key == b[0].key && a[0].value == Str(t) && b[0].value == Str(u);
  }

  ghost predicate Collide(version: PyStr, key: PyStr, t: PyStr, u: PyStr, fraction: real -> string) {
    && !Agree(Single(key, t), Single(key, u))
    && TextOf(version, Single(key, t), fraction) == TextOf(version, Single(key, u), fraction)
  }

  /** The guard is exact: a string has a pair if and only if some string without one makes a
      request that does not agree and yet is hashed from the same text. */
  lemma PairsCollideIff(version: PyStr, key: PyStr, t: PyStr, fraction: real -> string)
    ensures HasPair(t) <==> exists u :: !HasPair(u) && Collide(version, key, t, u, fraction)
  {
    if HasPair(t) {
      RereadIff(t);
      RereadIff(Reread(t));
      SinglesShareTextIff(version, key, t, Reread(t), fraction);
      SinglesAgreeIff(key, t, Reread(t));
      assert Collide(version, key, t, Reread(t), fraction);
    } else {
      forall u | !HasPair(u) ensures !Collide(version, key, t, u, fraction) {
        SinglesShareTextIff(version, key, t, u, fraction);
        RereadIff(t);
        RereadIff(u);
        SinglesAgreeIff(key, t, u);
      }
    }
  }

  /** Two surrogates in a row and the one character they stand for. */
  lemma SurrogatesCollide(version: PyStr, key: PyStr, fraction: real -> string)
    ensures Collide(version, key, [0xD800, 0xDC00], [0x1_0000], fraction)
    ensures TextOf(version, Single(key, [0xD800, 0xDC00]), fraction).Some?
  {
    var pair, one := [0xD800, 0xDC00], [0x1_0000];
    assert pair[1..] == [0xDC00] && one[1..] == [] && [0xDC00][1..] == [];
    assert Units(pair) == [0xD800, 0xDC00] && Units(one) == [0xD800, 0xDC00];
    SinglesShareTextIff(version, key, pair, one, fraction);
    SinglesAgreeIff(key, pair, one);
    SinglesAreCompared(version, key, pair, fraction);
  }
}
