/** One-shot assertions over whole runs. A call of verify_shadow_action reads the clock when
    it validates and again when its nonce claim settles; between the two, other calls run and
    the ledger may forget expired claims. */
module NonceReplay {
  import A = Attestation
  import Authorisation

  /** One signed assertion: id tells apart assertions that share a nonce. */
  datatype Token = Token(id: int, consumer: string, nonce: string, issued: int, expires: int)

  datatype Acceptance = Acceptance(token: Token, at: int)

  /** A call that has validated its assertion and has yet to claim the nonce. */
  datatype Waiting = Waiting(token: Token, since: int)

  datatype State = State(
    now: int,
    claims: map<(string, string), int>,
    pending: map<nat, Waiting>,
    accepted: seq<Acceptance>)

  datatype Step =
    | Tick(later: int)
    | Validate(call: nat, token: Token)
    | Settle(call: nat, capacity: bool)
    | Forget(keys: set<(string, string)>)

  function Start(now: int): State {
    State(now, map[], map[], [])
  }

  function KeyOf(token: Token): (string, string) {
    (token.consumer, token.nonce)
  }

  ghost predicate Enabled(s: State, step: Step) {
    match step
    case Tick(later) => s.now <= later
    case Validate(call, token) => call !in s.pending && A.InWindow(token.issued, token.expires, s.now)
    case Settle(call, _) => call in s.pending
    case Forget(keys) => forall k | k in keys && k in s.claims :: s.claims[k] <= s.now
  }

  /** A ledger that rechecks refuses a claim whose assertion has expired by now. */
  function Take(s: State, step: Step, rechecks: bool): State
    requires Enabled(s, step)
  {
    match step
    case Tick(later) => s.(now := later)
    case Validate(call, token) => s.(pending := s.pending[call := Waiting(token, s.now)])
    case Settle(call, capacity) =>
      var token := s.pending[call].token;
      var waiting := s.(pending := s.pending - {call});
      if (rechecks && token.expires <= s.now) || KeyOf(token) in s.claims || !capacity then waiting
      else waiting.(claims := s.claims[KeyOf(token) := token.expires],
                    accepted := s.accepted + [Acceptance(token, s.now)])
    case Forget(keys) => s.(claims := s.claims - keys)
  }

  ghost predicate Run(s: State, steps: seq<Step>, rechecks: bool)
    decreases |steps|
  {
    steps != [] ==> Enabled(s, steps[0]) && Run(Take(s, steps[0], rechecks), steps[1..], rechecks)
  }

  function After(s: State, steps: seq<Step>, rechecks: bool): State
    requires Run(s, steps, rechecks)
    decreases |steps|
  {
    if steps == [] then s else After(Take(s, steps[0], rechecks), steps[1..], rechecks)
  }

  /** Every claim of the run settles while its assertion is still valid. */
  ghost predicate Prompt(s: State, steps: seq<Step>, rechecks: bool)
    requires Run(s, steps, rechecks)
    decreases |steps|
  {
    steps != [] ==>
      && (steps[0].Settle? ==> s.now < s.pending[steps[0].call].token.expires)
      && Prompt(Take(s, steps[0], rechecks), steps[1..], rechecks)
  }

  // ---------------------------------------------------------------- the invariant

  predicate OnceEach(s: State) {
    forall i, j | 0 <= i < j < |s.accepted| :: s.accepted[i].token != s.accepted[j].token
  }

  predicate Guarded(s: State, token: Token) {
    s.now >= token.expires || (KeyOf(token) in s.claims && s.claims[KeyOf(token)] == token.expires)
  }

  /** An accepted assertion has expired or its claim still stands, and every time lies in the
      assertion's window. */
  ghost predicate Sound(s: State) {
    && OnceEach(s)
    && (forall i | 0 <= i < |s.accepted| :: Guarded(s, s.accepted[i].token))
    && (forall i | 0 <= i < |s.accepted| ::
          A.InWindow(s.accepted[i].token.issued, s.accepted[i].token.expires, s.accepted[i].at))
    && (forall call | call in s.pending ::
          && A.InWindow(s.pending[call].token.issued, s.pending[call].token.expires, s.pending[call].since)
          && s.pending[call].since <= s.now)
  }

  lemma StepKeepsSound(s: State, step: Step, rechecks: bool)
    requires Sound(s) && Enabled(s, step)
    requires rechecks || (step.Settle? ==> s.now < s.pending[step.call].token.expires)
    ensures Sound(Take(s, step, rechecks))
  {
    var t := Take(s, step, rechecks);
    if step.Settle? && |t.accepted| > |s.accepted| {
      var token := s.pending[step.call].token;
      forall i | 0 <= i < |s.accepted| ensures s.accepted[i].token != token && Guarded(t, s.accepted[i].token) {
        assert Guarded(s, s.accepted[i].token);
      }
    } else {
      forall i | 0 <= i < |t.accepted| ensures Guarded(t, t.accepted[i].token) {
        assert Guarded(s, s.accepted[i].token);
      }
    }
  }

  lemma {:induction false} RunsAreSound(s: State, steps: seq<Step>, rechecks: bool)
    requires Sound(s) && Run(s, steps, rechecks)
    requires rechecks || Prompt(s, steps, rechecks)
    ensures Sound(After(s, steps, rechecks))
    decreases |steps|
  {
    if steps != [] {
      StepKeepsSound(s, steps[0], rechecks);
      RunsAreSound(Take(s, steps[0], rechecks), steps[1..], rechecks);
    }
  }

  // ---------------------------------------------------------------- at most once

  /** Whatever the interleaving and whatever the ledger forgets after expiry, an assertion is
      accepted at most once, and only between five seconds before its issue and sixty after,
      as long as no claim settles on an expired assertion. */
  lemma AcceptedAtMostOnce(now: int, steps: seq<Step>, rechecks: bool)
    requires Run(Start(now), steps, rechecks)
    requires rechecks || Prompt(Start(now), steps, rechecks)
    ensures OnceEach(After(Start(now), steps, rechecks))
    ensures forall e | e in After(Start(now), steps, rechecks).accepted ::
      e.token.issued - 5 <= e.at < e.token.issued + 60
  {
    RunsAreSound(Start(now), steps, rechecks);
    var s := After(Start(now), steps, rechecks);
    forall e | e in s.accepted ensures e.token.issued - 5 <= e.at < e.token.issued + 60 {
      var i :| 0 <= i < |s.accepted| && s.accepted[i] == e;
      assert A.InWindow(s.accepted[i].token.issued, s.accepted[i].token.expires, s.accepted[i].at);
    }
  }

  ghost predicate OneShot(rechecks: bool) {
    forall now, steps | Run(Start(now), steps, rechecks) :: OnceEach(After(Start(now), steps, rechecks))
  }

  /** The second claim settles as the assertion expires, after the first has been forgotten. */
  function Slow(): seq<Step> {
    var token := Token(0, "c", "n", 0, 60);
    [Validate(0, token), Validate(1, token), Settle(0, true), Tick(60), Forget({KeyOf(token)}), Settle(1, true)]
  }

  lemma SlowClaimRepeats()
    ensures Run(Start(0), Slow(), false) && !OnceEach(After(Start(0), Slow(), false))
  {
    var token, steps := Token(0, "c", "n", 0, 60), Slow();
    var s1 := Take(Start(0), steps[0], false);
    var s2 := Take(s1, steps[1], false);
    var s3 := Take(s2, steps[2], false);
    assert s3 == State(0, map[KeyOf(token) := 60], map[1 := Waiting(token, 0)], [Acceptance(token, 0)]);
    var end := SlowEnds(s3);
    StepThen(s2, steps, 2, end);
    StepThen(s1, steps, 1, end);
    StepThen(Start(0), steps, 0, end);
    assert steps[0..] == steps;
    assert end.accepted[0].token == end.accepted[1].token;
  }

  lemma SlowEnds(s3: State) returns (end: State)
    requires
      var token := Token(0, "c", "n", 0, 60);
      s3 == State(0, map[KeyOf(token) := 60], map[1 := Waiting(token, 0)], [Acceptance(token, 0)])
    ensures Run(s3, Slow()[3..], false) && After(s3, Slow()[3..], false) == end
    ensures end.accepted == [Acceptance(Token(0, "c", "n", 0, 60), 0), Acceptance(Token(0, "c", "n", 0, 60), 60)]
  {
    var token, steps := Token(0, "c", "n", 0, 60), Slow();
    var s4 := Take(s3, steps[3], false);
    var s5 := Take(s4, steps[4], false);
    assert s5 == State(60, map[], map[1 := Waiting(token, 0)], [Acceptance(token, 0)]);
    end := Take(s5, steps[5], false);
    assert steps[6..] == [];
    StepThen(s5, steps, 5, end);
    StepThen(s4, steps, 4, end);
    StepThen(s3, steps, 3, end);
  }

  lemma StepThen(s: State, steps: seq<Step>, i: nat, end: State)
    requires i < |steps| && Enabled(s, steps[i])
    requires Run(Take(s, steps[i], false), steps[i + 1..], false)
    requires After(Take(s, steps[i], false), steps[i + 1..], false) == end
    ensures Run(s, steps[i..], false) && After(s, steps[i..], false) == end
  {
    assert steps[i..][0] == steps[i] && steps[i..][1..] == steps[i + 1..];
  }

  /** A ledger that forgets expired claims makes assertions one-shot over all interleavings
      exactly when it checks the expiry again as it claims. */
  lemma OneShotIffRechecked(rechecks: bool)
    ensures OneShot(rechecks) <==> rechecks
  {
    if rechecks {
      forall now, steps | Run(Start(now), steps, rechecks)
        ensures OnceEach(After(Start(now), steps, rechecks))
      {
        AcceptedAtMostOnce(now, steps, rechecks);
      }
    } else {
      SlowClaimRepeats();
    }
  }

  // ---------------------------------------------------------------- how long a call may take

  /** Every claim settles at most `delay` seconds after its own validation. */
  ghost predicate Within(s: State, steps: seq<Step>, rechecks: bool, delay: nat)
    requires Run(s, steps, rechecks)
    decreases |steps|
  {
    steps != [] ==>
      && (steps[0].Settle? ==> s.now <= s.pending[steps[0].call].since + delay)
      && Within(Take(s, steps[0], rechecks), steps[1..], rechecks, delay)
  }

  /** Calls do not overlap: one validates only when none is waiting. */
  ghost predicate Serial(s: State, steps: seq<Step>, rechecks: bool)
    requires Run(s, steps, rechecks)
    decreases |steps|
  {
    steps != [] ==>
      && (steps[0].Validate? ==> s.pending == map[])
      && Serial(Take(s, steps[0], rechecks), steps[1..], rechecks)
  }

  ghost predicate ValidatedInTime(s: State) {
    forall call | call in s.pending :: s.pending[call].since < s.pending[call].token.expires
  }

  lemma {:induction false} InstantIsPrompt(s: State, steps: seq<Step>, rechecks: bool)
    requires Run(s, steps, rechecks) && ValidatedInTime(s) && Within(s, steps, rechecks, 0)
    ensures Prompt(s, steps, rechecks)
    decreases |steps|
  {
    if steps != [] {
      InstantIsPrompt(Take(s, steps[0], rechecks), steps[1..], rechecks);
    }
  }

  /** When no second passes between a validation and its claim, assertions are one-shot over
      any ledger, overlapping calls and forgetting inside a call included. */
  lemma InstantCallsAreOneShot(now: int, steps: seq<Step>, rechecks: bool)
    requires Run(Start(now), steps, rechecks) && Within(Start(now), steps, rechecks, 0)
    ensures OnceEach(After(Start(now), steps, rechecks))
  {
    InstantIsPrompt(Start(now), steps, rechecks);
    AcceptedAtMostOnce(now, steps, rechecks);
  }

  /** Even calls that never overlap are one-shot over a ledger that ignores the clock exactly
      when no second passes inside a call. */
  lemma SerialCallsAreOneShotIff(delay: nat)
    ensures (forall now, steps | Run(Start(now), steps, false) && Serial(Start(now), steps, false)
               && Within(Start(now), steps, false, delay) :: OnceEach(After(Start(now), steps, false)))
       <==> delay == 0
  {
    if delay == 0 {
      forall now, steps | Run(Start(now), steps, false) && Within(Start(now), steps, false, 0)
        ensures OnceEach(After(Start(now), steps, false))
      {
        InstantCallsAreOneShot(now, steps, false);
      }
    } else {
      SecondCallRepeats(delay);
    }
  }

  /** The second call validates in the assertion's last second and claims in the next. */
  function Straddling(): seq<Step> {
    var token := Token(0, "c", "n", 0, 60);
    [Validate(0, token), Settle(0, true), Tick(59), Validate(1, token), Tick(60), Forget({KeyOf(token)}), Settle(1, true)]
  }

  ghost predicate Straddles(s: State, i: nat, delay: nat) {
    var steps := Straddling();
    && i <= |steps|
    && Run(s, steps[i..], false) && Serial(s, steps[i..], false) && Within(s, steps[i..], false, delay)
    && After(s, steps[i..], false).accepted
       == [Acceptance(Token(0, "c", "n", 0, 60), 0), Acceptance(Token(0, "c", "n", 0, 60), 60)]
  }

  lemma SecondCallRepeats(delay: nat)
    requires delay > 0
    ensures Run(Start(0), Straddling(), false) && Serial(Start(0), Straddling(), false)
    ensures Within(Start(0), Straddling(), false, delay) && !OnceEach(After(Start(0), Straddling(), false))
  {
    var token, steps := Token(0, "c", "n", 0, 60), Straddling();
    var s1 := Take(Start(0), steps[0], false);
    var s2 := Take(s1, steps[1], false);
    assert s2 == State(0, map[KeyOf(token) := 60], map[], [Acceptance(token, 0)]);
    StraddlingEnds(s2, delay);
    StraddlingStep(s1, 1, delay);
    StraddlingStep(Start(0), 0, delay);
    assert steps[0..] == steps;
    var accepted := After(Start(0), steps, false).accepted;
    assert accepted[0].token == accepted[1].token;
  }

  lemma StraddlingEnds(s2: State, delay: nat)
    requires delay > 0
    requires
      var token := Token(0, "c", "n", 0, 60);
      s2 == State(0, map[KeyOf(token) := 60], map[], [Acceptance(token, 0)])
    ensures Straddles(s2, 2, delay)
  {
    var token, steps := Token(0, "c", "n", 0, 60), Straddling();
    var s3 := Take(s2, steps[2], false);
    var s4 := Take(s3, steps[3], false);
    var s5 := Take(s4, steps[4], false);
    var s6 := Take(s5, steps[5], false);
    assert s6 == State(60, map[], map[1 := Waiting(token, 59)], [Acceptance(token, 0)]);
    var s7 := Take(s6, steps[6], false);
    assert s7.accepted == [Acceptance(token, 0), Acceptance(token, 60)];
    assert steps[7..] == [];
    StraddlingStep(s6, 6, delay);
    StraddlingStep(s5, 5, delay);
    StraddlingStep(s4, 4, delay);
    StraddlingStep(s3, 3, delay);
    StraddlingStep(s2, 2, delay);
  }

  lemma StraddlingStep(s: State, i: nat, delay: nat)
    requires i < |Straddling()| && Enabled(s, Straddling()[i])
    requires Straddling()[i].Validate? ==> s.pending == map[]
    requires Straddling()[i].Settle? ==> s.now <= s.pending[Straddling()[i].call].since + delay
    requires Straddles(Take(s, Straddling()[i], false), i + 1, delay)
    ensures Straddles(s, i, delay)
  {
    var steps := Straddling();
    assert steps[i..][0] == steps[i] && steps[i..][1..] == steps[i + 1..];
  }

  /** A transaction of the durable ledger whose stamp is still the current instant is a
      forgetting of expired claims followed by one rechecked claim. */
  lemma PunctualTransactionRechecks(s: State, call: nat)
    requires call in s.pending
    ensures
      var token := s.pending[call].token;
      var (outcome, after) := Authorisation.Settle(s.claims, token.consumer, token.nonce, token.expires, s.now);
      var dead := if outcome == Authorisation.Late || outcome == Authorisation.Full then {}
                  else s.claims.Keys - Authorisation.Alive(s.claims, s.now).Keys;
      && Enabled(s, Forget(dead))
      && Enabled(Take(s, Forget(dead), true), Settle(call, outcome != Authorisation.Full))
      && var t := Take(Take(s, Forget(dead), true), Settle(call, outcome != Authorisation.Full), true);
      && t.claims == after
      && (outcome == Authorisation.Claimed <==> t.accepted == s.accepted + [Acceptance(token, s.now)])
  {
    var token := s.pending[call].token;
    var alive := Authorisation.Alive(s.claims, s.now);
    assert s.claims - (s.claims.Keys - alive.Keys) == alive;
    assert s.claims - {} == s.claims;
    assert s.accepted != s.accepted + [Acceptance(token, s.now)];
  }
}
