/** The one-shot promise of verify_shadow_action (strathmark/auth.py) for its answers: calls of
    one service over the durable ledger, in the order in which their transactions commit. */
module OneShotCalls {
  import opened Wrappers
  import opened Attestation
  import opened Authorisation
  import DurableNonces
  import NonceReplay

  // ---------------------------------------------------------------- calls and what they leave

  /** The service: its library and its secrets. */
  datatype Service = Service(lib: Library, config: Config)

  /** What a call asks, when it validates the assertion and the stamp its claim carries. */
  datatype Call = Call(request: Request, now: int, stamp: int)

  /** A call that has ended: the assertion it was authorised by, if any, its answer and the
      claims it left. */
  datatype Event = Event(presented: Option<Attested>, stamp: int, result: Result<Attested, AuthError>, after: Claims)

  ghost function EventOf(service: Service, before: Claims, c: Call): Event {
    var (result, after) := Ask(service.lib, service.config, c.request, before, c.now, c.stamp);
    Event(
      if Authorises(service.lib, service.config, c.request, c.now) then
        Some(Presented(service.lib, service.config, c.request, c.now).value)
      else None,
      c.stamp, result, after)
  }

  ghost function EventsOf(service: Service, calls: seq<Call>): seq<Event> {
    if calls == [] then []
    else
      var events := EventsOf(service, calls[..|calls| - 1]);
      events + [EventOf(service, Before(events, |events|), calls[|calls| - 1])]
  }

  /** The claims that the event at i finds. */
  function Before(events: seq<Event>, i: nat): Claims
    requires i <= |events|
  {
    if i == 0 then map[] else events[i - 1].after
  }

  ghost predicate HonestEvent(e: Event, before: Claims) {
    match e.presented
    case None => e.result.Err? && e.after == before
    case Some(a) => Honest(e.result, a, before, e.after, e.stamp)
  }

  /** The nonce was claimed in the assertion's window. */
  predicate InTime(e: Event) {
    e.result.Ok? ==>
      var a := e.result.value;
      a.issued - 5 <= e.stamp < a.expires <= a.issued + 60
  }

  ghost predicate History(events: seq<Event>) {
    forall i | 0 <= i < |events| :: HonestEvent(events[i], Before(events, i))
  }

  /** The event is honest, carries the call's stamp, and is in time by a clock that did not run
      backwards inside the call. */
  ghost predicate MadeBy(e: Event, c: Call, before: Claims) {
    && HonestEvent(e, before)
    && e.stamp == c.stamp
    && (c.now <= c.stamp ==> InTime(e))
  }

  lemma EventIsHonest(service: Service, before: Claims, c: Call)
    ensures MadeBy(EventOf(service, before, c), c, before)
  {
    AnswersAreHonest(service.lib, service.config, c.request, before, c.now, c.stamp);
    if Authorises(service.lib, service.config, c.request, c.now) {
      var consumer := service.lib.identity(c.request.consumer).value;
      var p := DecodeAndVerify(service.lib, c.request.assertion, service.config.keys.value[consumer]).value;
      ValidInOneWindow(service.lib, p, c.now);
    }
  }

  /** Any calls make a history. */
  lemma {:induction false} CallsMakeHistory(service: Service, calls: seq<Call>)
    ensures |EventsOf(service, calls)| == |calls| && History(EventsOf(service, calls))
    ensures forall i | 0 <= i < |calls| ::
      MadeBy(EventsOf(service, calls)[i], calls[i], Before(EventsOf(service, calls), i))
  {
    if calls != [] {
      var earlier := EventsOf(service, calls[..|calls| - 1]);
      CallsMakeHistory(service, calls[..|calls| - 1]);
      AddCall(service, earlier, calls);
    }
  }

  lemma AddCall(service: Service, earlier: seq<Event>, calls: seq<Call>)
    requires calls != [] && |earlier| == |calls| - 1
    requires forall i | 0 <= i < |earlier| :: MadeBy(earlier[i], calls[i], Before(earlier, i))
    ensures
      var events := earlier + [EventOf(service, Before(earlier, |earlier|), calls[|calls| - 1])];
      forall i | 0 <= i < |calls| :: MadeBy(events[i], calls[i], Before(events, i))
  {
    EventIsHonest(service, Before(earlier, |earlier|), calls[|calls| - 1]);
    AddEvent(MadeBy, earlier, EventOf(service, Before(earlier, |earlier|), calls[|calls| - 1]), calls);
  }

  lemma AddEvent(
      made: (Event, Call, Claims) -> bool, earlier: seq<Event>, e: Event, calls: seq<Call>)
    requires calls != [] && |earlier| == |calls| - 1
    requires forall i | 0 <= i < |earlier| :: made(earlier[i], calls[i], Before(earlier, i))
    requires made(e, calls[|calls| - 1], Before(earlier, |earlier|))
    ensures forall i | 0 <= i < |calls| :: made((earlier + [e])[i], calls[i], Before(earlier + [e], i))
  {
    forall i | 0 <= i < |calls| ensures made((earlier + [e])[i], calls[i], Before(earlier + [e], i)) {
      assert Before(earlier + [e], i) == Before(earlier, i);
    }
  }

  // ---------------------------------------------------------------- let in once

  predicate StandsAfter(e: Event, a: Attested) {
    (a.consumer, a.nonce) in e.after && e.after[(a.consumer, a.nonce)] == a.expires
  }

  /** The claim of a call let in stands while no stamp reaches the expiry. */
  lemma {:induction false} ClaimStands(events: seq<Event>, i: nat, m: nat, a: Attested)
    requires History(events) && i <= m < |events| && events[i].result == Ok(a)
    requires forall k | i < k <= m :: events[k].stamp < a.expires
    ensures StandsAfter(events[m], a)
    decreases m
  {
    assert HonestEvent(events[m], Before(events, m));
    if i < m {
      ClaimStands(events, i, m - 1, a);
    }
  }

  /** A request let in once: until a stamp reaches its expiry the claim stands, and every call
      that presents its nonce again, whatever else it asks, is refused; as a replay, unless
      what it presents has itself expired by its stamp. */
  lemma LetInOnce(events: seq<Event>, i: nat, j: nat, a: Attested)
    requires History(events) && i < j < |events| && events[i].result == Ok(a)
    requires forall k | i < k <= j :: events[k].stamp < a.expires
    ensures StandsAfter(events[j - 1], a) && StandsAfter(events[j], a)
    ensures
      var b := events[j].presented;
      b.Some? && b.value.consumer == a.consumer && b.value.nonce == a.nonce ==>
        events[j].result == Err(if b.value.expires <= events[j].stamp then LateClaim else Replayed)
  {
    ClaimStands(events, i, j - 1, a);
    ClaimStands(events, i, j, a);
    assert HonestEvent(events[j], Before(events, j));
  }

  // ---------------------------------------------------------------- one-shot, or overtaken

  function Stamps(calls: seq<Call>): (r: seq<int>)
    ensures |r| == |calls| && forall i | 0 <= i < |r| :: r[i] == calls[i].stamp
  {
    seq(|calls|, i requires 0 <= i < |calls| => calls[i].stamp)
  }

  /** Two calls let in with the same assertion were overtaken: one committed between them
      carries a stamp later than both, and theirs are less than 65 seconds apart. */
  lemma TwiceIsOvertaken(events: seq<Event>, i: nat, j: nat, a: Attested)
    requires History(events) && i < j < |events|
    requires InTime(events[i]) && events[i].result == Ok(a)
    requires InTime(events[j]) && events[j].result == Ok(a)
    ensures exists k :: i < k < j && events[i].stamp < events[k].stamp && events[j].stamp < events[k].stamp
    ensures -65 < events[i].stamp - events[j].stamp < 65
  {
    assert HonestEvent(events[j], Before(events, j));
    if forall k | i < k < j :: events[k].stamp < a.expires {
      LetInOnce(events, i, j, a);
    } else {
      var k :| i < k < j && events[k].stamp >= a.expires;
      assert events[i].stamp < events[k].stamp;
    }
  }

  /** Unless some transaction is overtaken by another's later stamp, no two calls are let in
      with the same assertion, whatever is asked in between. */
  lemma OneShotUnlessOvertaken(service: Service, calls: seq<Call>, i: nat, j: nat, a: Attested)
    requires forall k | 0 <= k < |calls| :: calls[k].now <= calls[k].stamp
    requires !DurableNonces.Overtaken(Stamps(calls)) && i < j < |calls| == |EventsOf(service, calls)|
    ensures !(EventsOf(service, calls)[i].result == EventsOf(service, calls)[j].result == Ok(a))
  {
    var events := EventsOf(service, calls);
    CallsMakeHistory(service, calls);
    if events[i].result == events[j].result == Ok(a) {
      TwiceIsOvertaken(events, i, j, a);
      var k :| i < k < j && events[i].stamp < events[k].stamp && events[j].stamp < events[k].stamp;
      assert DurableNonces.OvertakenAt(Stamps(calls), i, k, j);
    }
  }

  // ---------------------------------------------------------------- calls are transactions

  /** The transactions of the calls, for those that get so far. */
  function AttemptsOf(events: seq<Event>): seq<DurableNonces.Attempt> {
    if events == [] then []
    else AttemptsOf(events[..|events| - 1]) + AttemptOf(events[|events| - 1])
  }

  function AttemptOf(e: Event): seq<DurableNonces.Attempt> {
    match e.presented
    case None => []
    case Some(a) =>
      if a.expires <= e.stamp then []
      else [DurableNonces.Attempt(NonceReplay.Token(0, a.consumer, a.nonce, a.issued, a.expires), e.stamp)]
  }

  /** The claims of calls are those of their transactions. */
  lemma {:induction false} CallsAreTransactions(events: seq<Event>)
    requires History(events)
    ensures Before(events, |events|) == DurableNonces.ClaimsAfter(AttemptsOf(events))
  {
    if events != [] {
      var last := |events| - 1;
      HistoryBefore(events, last);
      CallsAreTransactions(events[..last]);
      EventTransacts(events[last], Before(events, last));
      var before, ts := AttemptsOf(events[..last]), AttemptsOf(events);
      if AttemptOf(events[last]) != [] {
        assert ts[..|ts| - 1] == before;
      } else {
        assert ts == before;
      }
    }
  }

  lemma HistoryBefore(events: seq<Event>, n: nat)
    requires History(events) && n <= |events|
    ensures History(events[..n]) && Before(events[..n], n) == Before(events, n)
  {
    forall i | 0 <= i < n ensures HonestEvent(events[..n][i], Before(events[..n], i)) {
      assert events[..n][i] == events[i] && Before(events[..n], i) == Before(events, i);
    }
  }

  lemma EventTransacts(e: Event, before: Claims)
    requires HonestEvent(e, before)
    ensures
      if AttemptOf(e) == [] then e.result.Err? && e.after == before
      else
        var (outcome, left) := DurableNonces.Outcomes(before, AttemptOf(e)[0]);
        (e.result.Ok? <==> outcome == Claimed) && e.after == left
  {
    if AttemptOf(e) != [] {
      SettlesHonestly(before, e.presented.value, e.stamp);
    }
  }
}
