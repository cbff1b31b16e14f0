/** The pre-body gate of the trusted shadow routes (TrustedShadowRequestGate in
    strathmark/api.py) over the admission pools of strathmark/admission.py.

    First the body loop of one call, as the loop it is; then every interleaving of
    concurrent calls, as a state machine whose single steps are the points between which
    the event loop may switch. */
module RequestGate {
  import opened Wrappers
  import opened Tallies
  import opened Admission

  const MAX_BODY: nat := 262_144
  const BODY_PLACES: nat := 8
  const RECOVERY_PLACES: nat := 4
  const PER_CALLER: nat := 2

  newtype byte = b: int | 0 <= b < 256

  // ---------------------------------------------------------------- one body

  /** What one wait for the client yields; Expired is either deadline running out, Cancelled
      the task being cancelled while it waits. */
  datatype Message = Chunk(bytes: seq<byte>, more: bool) | Disconnect | Expired | Cancelled

  datatype Outcome = Deliver(body: seq<byte>) | Reject(status: nat) | Drop

  datatype Reading = Continue(body: seq<byte>) | Finished(outcome: Outcome)

  /** One turn of the body loop. */
  function OnMessage(body: seq<byte>, declared: nat, m: Message): Reading {
    match m
    case Expired => Finished(Reject(408))
    case Disconnect => Finished(Drop)
    case Cancelled => Finished(Drop)
    case Chunk(bytes, more) =>
      if |body| + |bytes| > MAX_BODY then Finished(Reject(413))
      else if more then Continue(body + bytes)
      else if |body + bytes| != declared then Finished(Reject(400))
      else Finished(Deliver(body + bytes))
  }

  /** The buffer after a message: a chunk that would burst it is not added. */
  function Buffered(body: seq<byte>, m: Message): (r: seq<byte>)
    requires |body| <= MAX_BODY
    ensures |r| <= MAX_BODY
  {
    if m.Chunk? && |body| + |m.bytes| <= MAX_BODY then body + m.bytes else body
  }

  function Joined(messages: seq<Message>): seq<byte>
    requires forall m | m in messages :: m.Chunk?
  {
    if messages == [] then [] else Joined(messages[..|messages| - 1]) + messages[|messages| - 1].bytes
  }

  /** The first `n` messages are chunks of one body, all but possibly the last saying more is to come. */
  ghost predicate Partial(messages: seq<Message>, n: nat) {
    && n <= |messages|
    && (forall i | 0 <= i < n :: messages[i].Chunk?)
    && (forall i | 0 <= i < n - 1 :: messages[i].more)
  }

  /** The first `n` messages are exactly one whole body. */
  ghost predicate Whole(messages: seq<Message>, n: nat) {
    n > 0 && Partial(messages, n) && !messages[n - 1].more
  }

  lemma {:induction false} JoinedGrows(messages: seq<Message>, i: nat, n: nat)
    requires i <= n <= |messages| && forall m | m in messages[..n] :: m.Chunk?
    ensures forall m | m in messages[..i] :: m.Chunk?
    ensures |Joined(messages[..i])| <= |Joined(messages[..n])|
    decreases n
  {
    assert forall m | m in messages[..i] :: m in messages[..n];
    if i < n {
      assert messages[..n][..n - 1] == messages[..n - 1];
      assert forall m | m in messages[..n - 1] :: m in messages[..n];
      JoinedGrows(messages, i, n - 1);
    }
  }

  lemma WholeIsUnique(messages: seq<Message>, n: nat, k: nat)
    requires Whole(messages, n) && Whole(messages, k)
    ensures n == k
  {}

  /** After chunks of one body that fits, the i-th message is this one. */
  ghost predicate StopsAt(messages: seq<Message>, i: nat, m: Message) {
    && i < |messages| && messages[i] == m
    && (forall j | 0 <= j < i :: messages[j].Chunk? && messages[j].more)
    && |Joined(messages[..i])| <= MAX_BODY
  }

  ghost predicate StopsOn(messages: seq<Message>, m: Message) {
    exists i: nat :: StopsAt(messages, i, m)
  }

  lemma StopsOnlyHere(messages: seq<Message>, i: nat, m: Message)
    requires i < |messages| && !m.Chunk?
    requires forall j | 0 <= j < i :: messages[j].Chunk? && messages[j].more
    requires messages[i].Chunk? ==> !messages[i].more || |Joined(messages[..i + 1])| > MAX_BODY
    ensures StopsOn(messages, m) ==> StopsAt(messages, i, m)
  {
    forall k: nat | StopsAt(messages, k, m) ensures k == i {
      if k > i {
        JoinedGrows(messages, i + 1, k);
      }
    }
  }

  lemma StopsNowhereElse(messages: seq<Message>, i: nat)
    requires i < |messages|
    requires forall j | 0 <= j < i :: messages[j].Chunk? && messages[j].more
    requires messages[i].Chunk? ==> !messages[i].more || |Joined(messages[..i + 1])| > MAX_BODY
    ensures forall m | m in {Disconnect, Cancelled, Expired} :: StopsOn(messages, m) ==> StopsAt(messages, i, m)
  {
    StopsOnlyHere(messages, i, Disconnect);
    StopsOnlyHere(messages, i, Cancelled);
    StopsOnlyHere(messages, i, Expired);
  }

  /** The client falls silent before its body, which still fits, is complete. */
  ghost predicate FallsSilent(messages: seq<Message>) {
    && (forall m | m in messages :: m.Chunk? && m.more)
    && |Joined(messages)| <= MAX_BODY
  }

  lemma StoppedBy(messages: seq<Message>, i: nat)
    requires i < |messages| && !messages[i].Chunk?
    requires forall j | 0 <= j < i :: messages[j].Chunk? && messages[j].more
    requires |Joined(messages[..i])| <= MAX_BODY
    ensures !exists n: nat :: Whole(messages, n)
    ensures !exists n: nat :: Partial(messages, n) && |Joined(messages[..n])| > MAX_BODY
    ensures forall m | m in {Disconnect, Cancelled, Expired} :: StopsOn(messages, m) <==> messages[i] == m
  {
    Settled(messages, i);
    StopsNowhereElse(messages, i);
    assert StopsAt(messages, i, messages[i]);
  }

  /** The receive loop. A client that sends nothing more is an Expired wait. The
      application is reached exactly when some first messages are one whole body of the
      declared and permitted length, and then with their concatenation. */
  method ReadBody(messages: seq<Message>, declared: nat) returns (outcome: Outcome, cancelled: bool)
    ensures outcome.Deliver? <==>
            exists n: nat :: Whole(messages, n) && |Joined(messages[..n])| == declared && declared <= 262_144
    ensures forall n: nat | Whole(messages, n) && outcome.Deliver? :: outcome.body == Joined(messages[..n])
    ensures outcome == Reject(413) <==>
            exists n: nat :: Partial(messages, n) && |Joined(messages[..n])| > 262_144
    ensures outcome == Reject(400) <==>
            exists n: nat :: Whole(messages, n) && |Joined(messages[..n])| <= 262_144 && |Joined(messages[..n])| != declared
    ensures outcome == Reject(408) <==> FallsSilent(messages) || StopsOn(messages, Expired)
    ensures outcome.Reject? ==> outcome.status in {400, 408, 413}
    ensures outcome == Drop <==> StopsOn(messages, Disconnect) || StopsOn(messages, Cancelled)
    ensures cancelled <==> StopsOn(messages, Cancelled)
  {
    cancelled := false;
    var body: seq<byte> := [];
    var i := 0;
    while i < |messages|
      invariant 0 <= i <= |messages|
      invariant forall j | 0 <= j < i :: messages[j].Chunk? && messages[j].more
      invariant body == Joined(messages[..i]) && |body| <= MAX_BODY
      invariant !cancelled
    {
      assert messages[..i + 1][..i] == messages[..i];
      match messages[i] {
        case Chunk(bytes, more) =>
          assert Partial(messages, i + 1) && Joined(messages[..i + 1]) == body + bytes;
          if |body| + |bytes| > MAX_BODY {
            TooLong(messages, i + 1, declared);
            StopsNowhereElse(messages, i);
            NotSilent(messages, i + 1);
            outcome := Reject(413);
            return;
          }
          body := body + bytes;
          if !more {
            outcome := EndOfBody(messages, i, body, declared);
            return;
          }
        case Expired =>
          StoppedBy(messages, i);
          outcome := Reject(408);
          return;
        case Disconnect =>
          StoppedBy(messages, i);
          outcome := Drop;
          return;
        case Cancelled =>
          StoppedBy(messages, i);
          outcome, cancelled := Drop, true;
          return;
      }
      i := i + 1;
    }
    assert messages[..i] == messages;
    assert FallsSilent(messages);
    forall n: nat | Partial(messages, n) ensures |Joined(messages[..n])| <= MAX_BODY {
      JoinedGrows(messages, n, |messages|);
    }
    outcome := Reject(408);
  }

  /** The length check once the last chunk is in. */
  method EndOfBody(messages: seq<Message>, i: nat, body: seq<byte>, declared: nat) returns (outcome: Outcome)
    requires i < |messages| && Whole(messages, i + 1) && body == Joined(messages[..i + 1]) && |body| <= MAX_BODY
    ensures outcome == if |body| != declared then Reject(400) else Deliver(body)
    ensures forall n: nat | Whole(messages, n) :: n == i + 1
    ensures !exists n: nat :: Partial(messages, n) && |Joined(messages[..n])| > MAX_BODY
    ensures !StopsOn(messages, Disconnect) && !StopsOn(messages, Cancelled) && !StopsOn(messages, Expired)
    ensures !FallsSilent(messages)
  {
    forall n: nat | Whole(messages, n) ensures n == i + 1 {
      WholeIsUnique(messages, n, i + 1);
    }
    StoppedAt(messages, i + 1);
    StopsNowhereElse(messages, i);
    assert messages[i] in messages;
    outcome := if |body| != declared then Reject(400) else Deliver(body);
  }

  lemma Settled(messages: seq<Message>, i: nat)
    requires i < |messages| && !messages[i].Chunk?
    requires forall j | 0 <= j < i :: messages[j].Chunk? && messages[j].more
    requires |Joined(messages[..i])| <= MAX_BODY
    ensures !exists n: nat :: Whole(messages, n)
    ensures !exists n: nat :: Partial(messages, n) && |Joined(messages[..n])| > MAX_BODY
  {
    forall n: nat | Partial(messages, n) ensures n <= i && |Joined(messages[..n])| <= MAX_BODY {
      JoinedGrows(messages, n, i);
    }
  }

  lemma TooLong(messages: seq<Message>, k: nat, declared: nat)
    requires k > 0 && Partial(messages, k) && |Joined(messages[..k])| > MAX_BODY
    requires forall j | 0 <= j < k - 1 :: messages[j].more
    ensures forall n: nat | Whole(messages, n) :: |Joined(messages[..n])| > MAX_BODY
  {
    forall n: nat | Whole(messages, n) ensures |Joined(messages[..n])| > MAX_BODY {
      assert n >= k;
      JoinedGrows(messages, k, n);
    }
  }

  lemma NotSilent(messages: seq<Message>, k: nat)
    requires k <= |messages| && (forall m | m in messages[..k] :: m.Chunk?) && |Joined(messages[..k])| > MAX_BODY
    ensures !FallsSilent(messages)
  {
    if FallsSilent(messages) {
      assert messages[..|messages|] == messages;
      JoinedGrows(messages, k, |messages|);
    }
  }

  lemma StoppedAt(messages: seq<Message>, k: nat)
    requires Whole(messages, k) && |Joined(messages[..k])| <= MAX_BODY
    ensures !exists n: nat :: Partial(messages, n) && |Joined(messages[..n])| > MAX_BODY
  {
    forall n: nat | Partial(messages, n) ensures |Joined(messages[..n])| <= MAX_BODY {
      assert n <= k;
      JoinedGrows(messages, n, k);
    }
  }

  /** The receive callable handed to the application: the body once, then a disconnect. */
  class ReplayBody {
    const body: seq<byte>
    var delivered: bool

    constructor (body: seq<byte>)
      ensures this.body == body && !delivered
    {
      this.body := body;
      delivered := false;
    }

    method Receive() returns (m: Message)
      modifies this
      ensures delivered
      ensures m == if old(delivered) then Disconnect else Chunk(body, false)
    {
      if delivered {
        return Disconnect;
      }
      delivered := true;
      return Chunk(body, false);
    }
  }

  /** How the wrapped application ends once it has the body. */
  datatype Fate = Returns | Raises

  /** One admitted call from acquire to the final release, with nobody else at work. The
      application receives `pulls` times and then returns or raises; a cancelled wait raises
      too. Every exit leaves the pool as it was found, and the application is entered only on
      a whole body, which it sees once. */
  method Serve(pool: WorkAdmission, caller: string, messages: seq<Message>, declared: nat, pulls: nat, fate: Fate)
    returns (admitted: bool, outcome: Outcome, seen: seq<Message>, raised: bool)
    requires pool.Valid()
    modifies pool
    ensures pool.Valid()
    ensures pool.active == old(pool.active) && pool.callers == old(pool.callers)
    ensures admitted <==> Room(old(Load(pool.active, pool.callers)), pool.maximum, pool.perCaller, caller)
    ensures !admitted ==> outcome == Reject(429)
    ensures admitted && outcome.Deliver? ==>
              exists n: nat :: Whole(messages, n) && outcome.body == Joined(messages[..n])
                          && |outcome.body| == declared
    ensures admitted && outcome.Deliver? ==>
              && |seen| == pulls
              && (forall k | 0 <= k < pulls :: seen[k] == if k == 0 then Chunk(outcome.body, false) else Disconnect)
    ensures !(admitted && outcome.Deliver?) ==> seen == []
    ensures raised <==> admitted && ((outcome.Deliver? && fate == Raises) || StopsOn(messages, Cancelled))
  {
    seen, raised := [], false;
    admitted := pool.Acquire(caller);
    if !admitted {
      outcome := Reject(429);
      return;
    }
    outcome, raised := ReadBody(messages, declared);
    if outcome.Deliver? {
      seen := Application(outcome.body, pulls);
      raised := fate == Raises;
    }
    assert caller in pool.callers;
    ReturnUndoesReserve(old(Load(pool.active, pool.callers)), caller);
    pool.Release(caller);
  }

  /** What an application that receives so often is given. */
  method Application(body: seq<byte>, pulls: nat) returns (seen: seq<Message>)
    ensures |seen| == pulls
    ensures forall k | 0 <= k < pulls :: seen[k] == if k == 0 then Chunk(body, false) else Disconnect
  {
    var replay := new ReplayBody(body);
    seen := [];
    while |seen| < pulls
      invariant |seen| <= pulls
      invariant replay.delivered <==> |seen| > 0
      invariant replay.body == body
      invariant forall k | 0 <= k < |seen| :: seen[k] == if k == 0 then Chunk(body, false) else Disconnect
    {
      var m := replay.Receive();
      seen := seen + [m];
    }
  }

  // ---------------------------------------------------------------- all calls at once

  datatype Pool = BodyPool | RecoveryPool

  function PoolOf(path: string): Pool {
    if path in {"/v1/shadow/receipts/lookup", "/v1/shadow/status"} then RecoveryPool else BodyPool
  }

  function Places(p: Pool): nat {
    if p == BodyPool then BODY_PLACES else RECOVERY_PLACES
  }

  /** The parsed Content-Length header and the outcome of the bearer check. */
  datatype Header = Missing | Malformed | Length(n: int)
  datatype Bearer = Unconfigured | Unauthenticated | Authenticated(digest: string)

  /** A rejected call keeps its place and its buffer until its response has been sent. */
  datatype Phase = Receiving | Rejecting(status: nat) | Running(delivered: bool) | Gone(outcome: Outcome)

  datatype Request = Request(admitted: bool, pool: Pool, caller: string, declared: nat, body: seq<byte>, phase: Phase)

  datatype Loads = Loads(ofBody: Load, ofRecovery: Load) {
    function At(p: Pool): Load {
      if p == BodyPool then ofBody else ofRecovery
    }

    function Put(p: Pool, load: Load): Loads {
      if p == BodyPool then this.(ofBody := load) else this.(ofRecovery := load)
    }
  }

  /** `acquired` and `released` record every admission and release ever made, by request. */
  datatype State = State(
    loads: Loads, requests: map<nat, Request>,
    acquired: multiset<nat>, released: multiset<nat>)

  datatype Step =
    | Arrive(id: nat, path: string, header: Header, bearer: Bearer)
    | Receive(id: nat, message: Message)
    | Rejected(id: nat)
    | AppReceive(id: nat)
    | AppEnd(id: nat)
    | Cancel(id: nat)

  predicate Live(s: State, id: nat) {
    id in s.requests && !s.requests[id].phase.Gone?
  }

  /** What the checks before admission say, in their order; Deliver([]) stands for "go on". */
  function Precheck(header: Header, bearer: Bearer): Outcome {
    match header
    case Missing => Reject(411)
    case Malformed => Reject(400)
    case Length(n) =>
      if n < 0 || n > MAX_BODY then Reject(413)
      else match bearer
        case Unconfigured => Reject(503)
        case Unauthenticated => Reject(401)
        case Authenticated(_) => Deliver([])
  }

  function Refuse(s: State, id: nat, outcome: Outcome): State {
    s.(requests := s.requests[id := Request(false, BodyPool, "", 0, [], Gone(outcome))])
  }

  function Admit(s: State, id: nat, pool: Pool, caller: string, declared: nat): State
  {
    s.(loads := s.loads.Put(pool, Reserved(s.loads.At(pool), caller)),
       requests := s.requests[id := Request(true, pool, caller, declared, [], Receiving)],
       acquired := s.acquired + multiset{id})
  }

  function Leave(s: State, id: nat, outcome: Outcome): State
    requires id in s.requests
    requires var load := s.loads.At(s.requests[id].pool);
             s.requests[id].caller in load.callers && load.callers[s.requests[id].caller] > 0 && load.active > 0
  {
    var r := s.requests[id];
    s.(loads := s.loads.Put(r.pool, Returned(s.loads.At(r.pool), r.caller)),
       requests := s.requests[id := r.(phase := Gone(outcome))],
       released := s.released + multiset{id})
  }

  /** When the event loop can take a step. Arrivals use fresh ids and shadow paths. */
  ghost predicate Enabled(s: State, step: Step) {
    match step
    case Arrive(id, path, _, _) => id !in s.requests && "/v1/shadow/" <= path
    case Receive(id, _) => Live(s, id) && s.requests[id].phase.Receiving?
    case Rejected(id) => Live(s, id) && s.requests[id].phase.Rejecting?
    case AppReceive(id) => Live(s, id) && s.requests[id].phase.Running?
    case AppEnd(id) => Live(s, id) && s.requests[id].phase.Running?
    case Cancel(id) => Live(s, id)
  }

  ghost function Take(s: State, step: Step): State
    requires Consistent(s) && Enabled(s, step)
  {
    match step
    case Arrive(id, path, header, bearer) =>
      var verdict := Precheck(header, bearer);
      if verdict.Reject? then Refuse(s, id, verdict)
      else if !Room(s.loads.At(PoolOf(path)), Places(PoolOf(path)), PER_CALLER, bearer.digest) then
        Refuse(s, id, Reject(429))
      else Admit(s, id, PoolOf(path), bearer.digest, header.n)
    case Receive(id, m) =>
      LiveCallersAreCounted(s, id);
      var r := s.requests[id];
      (match OnMessage(r.body, r.declared, m)
       case Continue(body) => s.(requests := s.requests[id := r.(body := body)])
       case Finished(Deliver(body)) =>
         s.(requests := s.requests[id := r.(body := body, phase := Running(false))])
       case Finished(Reject(status)) =>
         s.(requests := s.requests[id := r.(body := Buffered(r.body, m), phase := Rejecting(status))])
       case Finished(Drop) => Leave(s, id, Drop))
    case Rejected(id) =>
      LiveCallersAreCounted(s, id);
      Leave(s, id, Reject(s.requests[id].phase.status))
    case AppReceive(id) =>
      s.(requests := s.requests[id := s.requests[id].(phase := Running(true))])
    case AppEnd(id) =>
      LiveCallersAreCounted(s, id);
      Leave(s, id, Deliver(s.requests[id].body))
    case Cancel(id) =>
      LiveCallersAreCounted(s, id);
      Leave(s, id, Drop)
  }

  /** What an arrival is answered at once, by its header, its bearer and the calls under way;
      nothing when it is let in. */
  ghost function Answer(s: State, path: string, header: Header, bearer: Bearer): Option<nat> {
    var recovery := path == "/v1/shadow/receipts/lookup" || path == "/v1/shadow/status";
    var pool := if recovery then RecoveryPool else BodyPool;
    if header.Missing? then Some(411)
    else if header.Malformed? then Some(400)
    else if header.n < 0 || header.n > 262_144 then Some(413)
    else if bearer.Unconfigured? then Some(503)
    else if bearer.Unauthenticated? then Some(401)
    else if |Holding(s, pool)| >= (if recovery then 4 else 8) || |HoldingBy(s, pool, bearer.digest)| >= 2 then Some(429)
    else None
  }

  /** Only a configured and authenticated bearer with a declared length within the limit is ever
      let to send a body, and only while fewer than four calls for recovery, or eight others, are
      under way and fewer than two of its own; any other arrival takes no place and is told the
      first thing that is wrong with it. */
  lemma ArrivalIsAdmittedIff(s: State, id: nat, path: string, header: Header, bearer: Bearer)
    requires Consistent(s) && Enabled(s, Arrive(id, path, header, bearer))
    ensures
      var s', answer := Take(s, Arrive(id, path, header, bearer)), Answer(s, path, header, bearer);
      var r := s'.requests[id];
      && (r.admitted <==> answer.None?)
      && (answer.Some? ==> s'.loads == s.loads && r.phase == Gone(Reject(answer.value)))
      && (answer.None? ==> r.phase == Receiving && r.caller == bearer.digest && r.declared == header.n
                           && (r.pool == RecoveryPool <==> path in {"/v1/shadow/receipts/lookup", "/v1/shadow/status"}))
  {
    assert Books(s, PoolOf(path));
    if header.Length? && bearer.Authenticated? {
      assert Get(s.loads.At(PoolOf(path)).callers, bearer.digest) == |HoldingBy(s, PoolOf(path), bearer.digest)|;
    }
  }

  /** Which steps a call may take: its client's messages while it receives, its application's
      while that runs, the end of a rejection, and a cancellation at any time. */
  lemma StepsByPhase(s: State, id: nat, path: string, header: Header, bearer: Bearer, m: Message)
    ensures Enabled(s, Arrive(id, path, header, bearer)) <==>
      id !in s.requests && |path| >= 11 && path[..11] == "/v1/shadow/"
    ensures id in s.requests ==>
      var phase := s.requests[id].phase;
      && (Enabled(s, Receive(id, m)) <==> phase.Receiving?)
      && (Enabled(s, Rejected(id)) <==> phase.Rejecting?)
      && (Enabled(s, AppReceive(id)) <==> phase.Running?)
      && (Enabled(s, AppEnd(id)) <==> phase.Running?)
      && (Enabled(s, Cancel(id)) <==> !phase.Gone?)
  {}

  /** What becomes of a call by the message it receives. A chunk that would burst the limit is
      not kept; a call that is rejected keeps its place until its response is out, one whose
      client is gone leaves at once. */
  lemma MessageDecides(s: State, id: nat, m: Message)
    requires Consistent(s) && Enabled(s, Receive(id, m))
    ensures
      var r, r' := s.requests[id], Take(s, Receive(id, m)).requests[id];
      match m
      case Expired => r' == r.(phase := Rejecting(408))
      case Disconnect => r' == r.(phase := Gone(Drop))
      case Cancelled => r' == r.(phase := Gone(Drop))
      case Chunk(bytes, more) =>
        if |r.body| + |bytes| > 262_144 then r' == r.(phase := Rejecting(413))
        else
          r' == r.(body := r.body + bytes,
                   phase := if more then Receiving
                            else if |r.body| + |bytes| == r.declared then Running(false)
                            else Rejecting(400))
  {}

  ghost function Holding(s: State, pool: Pool): set<nat> {
    set id | id in s.requests && !s.requests[id].phase.Gone? && s.requests[id].pool == pool
  }

  ghost function HoldingBy(s: State, pool: Pool, caller: string): set<nat> {
    set id | id in s.requests && !s.requests[id].phase.Gone?
             && s.requests[id].pool == pool && s.requests[id].caller == caller
  }

  /** What holds between any two steps. */
  ghost predicate Consistent(s: State) {
    && Books(s, BodyPool)
    && Books(s, RecoveryPool)
    && (forall id | id in s.requests :: Sound(s, id))
    && (forall id | id !in s.requests :: s.acquired[id] == 0 && s.released[id] == 0)
  }

  /** A pool's counters agree with the calls that hold its places. */
  ghost predicate Books(s: State, p: Pool) {
    && Balanced(s.loads.At(p), Places(p), PER_CALLER)
    && s.loads.At(p).active == |Holding(s, p)|
    && forall c :: Get(s.loads.At(p).callers, c) == |HoldingBy(s, p, c)|
  }

  ghost predicate Sound(s: State, id: nat)
    requires id in s.requests
  {
    var r := s.requests[id];
    && |r.body| <= MAX_BODY
    && (r.phase.Running? ==> |r.body| == r.declared)
    && (!r.phase.Gone? ==> r.admitted)
    && s.acquired[id] == (if r.admitted then 1 else 0)
    && s.released[id] == (if r.admitted && r.phase.Gone? then 1 else 0)
  }

  const START := State(
    Loads(Load(0, map[]), Load(0, map[])), map[], multiset{}, multiset{})

  lemma StartIsConsistent()
    ensures Consistent(START)
  {
    forall p: Pool ensures Books(START, p) {
      assert Holding(START, p) == {};
      forall c ensures HoldingBy(START, p, c) == {} {}
    }
  }

  /** A call that still holds a place can always return it. */
  lemma {:induction false} LiveCallersAreCounted(s: State, id: nat)
    requires Consistent(s) && Live(s, id)
    ensures var r := s.requests[id];
            && r.caller in s.loads.At(r.pool).callers
            && s.loads.At(r.pool).callers[r.caller] > 0
            && s.loads.At(r.pool).active > 0
  {
    var r := s.requests[id];
    assert Books(s, r.pool);
    assert id in HoldingBy(s, r.pool, r.caller);
    assert Get(s.loads.At(r.pool).callers, r.caller) == |HoldingBy(s, r.pool, r.caller)| > 0;
    ReturnKeepsBalance(s.loads.At(r.pool), Places(r.pool), PER_CALLER, r.caller);
  }

  lemma AdmitHolders(s: State, id: nat, pool: Pool, caller: string, declared: nat, p: Pool)
    requires id !in s.requests
    ensures var s' := Admit(s, id, pool, caller, declared);
            && Holding(s', p) == Holding(s, p) + (if p == pool then {id} else {})
            && (forall c :: HoldingBy(s', p, c) == HoldingBy(s, p, c) + if p == pool && c == caller then {id} else {})
  {}

  lemma AdmitCounts(s: State, id: nat, pool: Pool, caller: string, declared: nat, p: Pool, c: string)
    requires Books(s, p) && id !in s.requests
    ensures Get(Admit(s, id, pool, caller, declared).loads.At(p).callers, c)
            == |HoldingBy(Admit(s, id, pool, caller, declared), p, c)|
  {
    AdmitHolders(s, id, pool, caller, declared, p);
    var holders := HoldingBy(s, p, c);
    assert Get(s.loads.At(p).callers, c) == |holders| && id !in holders;
  }

  lemma {:induction false} AdmitBooks(s: State, id: nat, pool: Pool, caller: string, declared: nat, p: Pool)
    requires Books(s, p) && id !in s.requests
    requires Room(s.loads.At(pool), Places(pool), PER_CALLER, caller)
    ensures Books(Admit(s, id, pool, caller, declared), p)
  {
    if p == pool {
      ReserveKeepsBalance(s.loads.At(p), Places(pool), PER_CALLER, caller);
    }
    AdmitHolders(s, id, pool, caller, declared, p);
    assert id !in Holding(s, p);
    forall c { AdmitCounts(s, id, pool, caller, declared, p, c); }
  }

  lemma {:induction false} AdmitKeeps(s: State, id: nat, pool: Pool, caller: string, declared: nat)
    requires Consistent(s) && id !in s.requests
    requires Room(s.loads.At(pool), Places(pool), PER_CALLER, caller)
    ensures Consistent(Admit(s, id, pool, caller, declared))
  {
    AdmitBooks(s, id, pool, caller, declared, BodyPool);
    AdmitBooks(s, id, pool, caller, declared, RecoveryPool);
    var s' := Admit(s, id, pool, caller, declared);
    forall other | other in s'.requests ensures Sound(s', other) {
      assert other != id ==> Sound(s, other);
    }
  }

  ghost predicate CanLeave(s: State, id: nat) {
    && Live(s, id)
    && var r := s.requests[id];
       && r.caller in s.loads.At(r.pool).callers
       && s.loads.At(r.pool).callers[r.caller] > 0
       && s.loads.At(r.pool).active > 0
  }

  lemma LeaveHolders(s: State, id: nat, outcome: Outcome, p: Pool)
    requires CanLeave(s, id)
    ensures
      var s', r := Leave(s, id, outcome), s.requests[id];
      && Holding(s', p) == Holding(s, p) - {id}
      && (id in Holding(s, p) <==> p == r.pool)
      && (forall c :: HoldingBy(s', p, c) == HoldingBy(s, p, c) - {id})
      && (forall c :: id in HoldingBy(s, p, c) <==> p == r.pool && c == r.caller)
  {}

  lemma {:induction false} LeaveBooks(s: State, id: nat, outcome: Outcome, p: Pool)
    requires Books(s, p) && CanLeave(s, id)
    ensures Books(Leave(s, id, outcome), p)
  {
    var r := s.requests[id];
    var s' := Leave(s, id, outcome);
    if p == r.pool {
      ReturnKeepsBalance(s.loads.At(p), Places(p), PER_CALLER, r.caller);
    }
    LeaveHolders(s, id, outcome, p);
    forall c ensures Get(s'.loads.At(p).callers, c) == |HoldingBy(s', p, c)| {
      assert Get(s.loads.At(p).callers, c) == |HoldingBy(s, p, c)|;
    }
  }

  lemma {:induction false} LeaveKeeps(s: State, id: nat, outcome: Outcome)
    requires Consistent(s) && Live(s, id)
    ensures CanLeave(s, id) && Consistent(Leave(s, id, outcome))
  {
    LiveCallersAreCounted(s, id);
    LeaveBooks(s, id, outcome, BodyPool);
    LeaveBooks(s, id, outcome, RecoveryPool);
    var s' := Leave(s, id, outcome);
    assert Sound(s, id);
    forall other | other in s'.requests ensures Sound(s', other) {
      assert other != id ==> Sound(s, other);
    }
  }

  /** A step that neither takes nor returns a place. */
  lemma {:induction false} StayKeeps(s: State, id: nat, r: Request)
    requires Consistent(s)
    requires if id in s.requests
             then Live(s, id) && r == s.requests[id].(body := r.body, phase := r.phase) && !r.phase.Gone?
             else !r.admitted && r.phase.Gone?
    requires |r.body| <= MAX_BODY && (r.phase.Running? ==> |r.body| == r.declared)
    ensures Consistent(s.(requests := s.requests[id := r]))
  {
    var s' := s.(requests := s.requests[id := r]);
    forall p: Pool ensures Books(s', p) {
      assert Books(s, p);
      assert Holding(s', p) == Holding(s, p);
      forall c ensures HoldingBy(s', p, c) == HoldingBy(s, p, c) {}
    }
    forall other | other in s'.requests ensures Sound(s', other) {
      assert other in s.requests ==> Sound(s, other);
    }
  }

  lemma {:induction false} StepKeepsConsistent(s: State, step: Step)
    requires Consistent(s) && Enabled(s, step)
    ensures Consistent(Take(s, step))
  {
    match step
    case Arrive(id, path, header, bearer) => {
      var verdict := Precheck(header, bearer);
      var pool := PoolOf(path);
      if verdict.Reject? {
        StayKeeps(s, id, Request(false, BodyPool, "", 0, [], Gone(verdict)));
      } else if !Room(s.loads.At(pool), Places(pool), PER_CALLER, bearer.digest) {
        StayKeeps(s, id, Request(false, BodyPool, "", 0, [], Gone(Reject(429))));
      } else {
        AdmitKeeps(s, id, pool, bearer.digest, header.n);
      }
    }
    case Receive(id, m) => {
      var r := s.requests[id];
      assert Sound(s, id);
      match OnMessage(r.body, r.declared, m)
      case Continue(body) => StayKeeps(s, id, r.(body := body));
      case Finished(Deliver(body)) => StayKeeps(s, id, r.(body := body, phase := Running(false)));
      case Finished(Reject(status)) =>
        StayKeeps(s, id, r.(body := Buffered(r.body, m), phase := Rejecting(status)));
      case Finished(Drop) => LeaveKeeps(s, id, Drop);
    }
    case Rejected(id) => LeaveKeeps(s, id, Reject(s.requests[id].phase.status));
    case AppReceive(id) => {
      assert Sound(s, id);
      StayKeeps(s, id, s.requests[id].(phase := Running(true)));
    }
    case AppEnd(id) => LeaveKeeps(s, id, Deliver(s.requests[id].body));
    case Cancel(id) => LeaveKeeps(s, id, Drop);
  }

  /** States reached from the start by some interleaving. */
  ghost predicate Run(states: seq<State>, steps: seq<Step>) {
    && |states| == |steps| + 1
    && states[0] == START
    && forall i | 0 <= i < |steps| ::
         Consistent(states[i]) ==> Enabled(states[i], steps[i]) && states[i + 1] == Take(states[i], steps[i])
  }

  lemma {:induction false} RunsAreConsistent(states: seq<State>, steps: seq<Step>, i: nat)
    requires Run(states, steps) && i < |states|
    ensures Consistent(states[i])
  {
    if i == 0 {
      StartIsConsistent();
    } else {
      RunsAreConsistent(states, steps, i - 1);
      StepKeepsConsistent(states[i - 1], steps[i - 1]);
    }
  }

  function BufferSizes(s: State): map<nat, nat> {
    map id | id in s.requests && !s.requests[id].phase.Gone? :: |s.requests[id].body|
  }

  /** Over every interleaving: each pool's counter is the sum of its callers' counts and the
      number of calls holding a place, nobody holds more than two, no idle caller is
      remembered, each admission is released at most once and exactly when its call is over,
      and all buffered bodies together stay below twelve maximal ones. */
  lemma {:induction false} GateIsBounded(states: seq<State>, steps: seq<Step>, i: nat)
    requires Run(states, steps) && i < |states|
    ensures forall p: Pool :: PoolIsBounded(states[i], p)
    ensures forall id :: states[i].released[id] <= states[i].acquired[id] <= 1
    ensures forall id :: states[i].released[id] < states[i].acquired[id] <==> Live(states[i], id)
    ensures Total(BufferSizes(states[i])) <= 12 * 262_144
  {
    var s := states[i];
    RunsAreConsistent(states, steps, i);
    forall p: Pool ensures PoolIsBounded(s, p) {
      assert Books(s, p);
    }
    forall id
      ensures s.released[id] <= s.acquired[id] <= 1 && (s.released[id] < s.acquired[id] <==> Live(s, id))
    {
      assert id in s.requests ==> Sound(s, id);
    }
    BuffersAreBounded(s);
  }

  ghost predicate PoolIsBounded(s: State, p: Pool) {
    var load := s.loads.At(p);
    && load.active == Total(load.callers) == |Holding(s, p)| <= (if p == RecoveryPool then 4 else 8)
    && (forall c :: |HoldingBy(s, p, c)| <= 2)
    && (forall c :: c in load.callers <==> HoldingBy(s, p, c) != {})
  }

  lemma {:induction false} BuffersAreBounded(s: State)
    requires Consistent(s)
    ensures Total(BufferSizes(s)) <= (BODY_PLACES + RECOVERY_PLACES) * MAX_BODY
  {
    var sizes := BufferSizes(s);
    forall id | id in sizes ensures sizes[id] <= MAX_BODY {
      assert Sound(s, id);
    }
    TotalAtMost(sizes, MAX_BODY);
    assert sizes.Keys == Holding(s, BodyPool) + Holding(s, RecoveryPool);
    assert |sizes| == |sizes.Keys| == |Holding(s, BodyPool)| + |Holding(s, RecoveryPool)|;
    assert Books(s, BodyPool) && Books(s, RecoveryPool);
  }

  /** The messages one request has received so far. */
  function ReceivedBy(steps: seq<Step>, id: nat): seq<Message> {
    if steps == [] then []
    else
      var last := steps[|steps| - 1];
      ReceivedBy(steps[..|steps| - 1], id) + if last.Receive? && last.id == id then [last.message] else []
  }

  ghost predicate Assembled(s: State, id: nat, messages: seq<Message>) {
    if id !in s.requests then messages == []
    else
      var r := s.requests[id];
      && (r.phase.Receiving? ==> (forall m | m in messages :: m.Chunk? && m.more) && r.body == Joined(messages))
      && (r.phase.Running? ==> Whole(messages, |messages|) && messages[..|messages|] == messages
                               && r.body == Joined(messages))
      && (r.phase.Rejecting? ==> Explains(messages, r.declared, r.phase.status))
      && (r.phase.Gone? && r.admitted ==>
            match r.phase.outcome
            case Deliver(body) => Whole(messages, |messages|) && messages[..|messages|] == messages
                                  && body == Joined(messages)
            case Reject(status) => Explains(messages, r.declared, status)
            case Drop => true)
  }

  /** The last message is what the rejection is for: a deadline, too many bytes, or the end of a
      body of another length than declared. */
  ghost predicate Explains(messages: seq<Message>, declared: nat, status: nat) {
    && messages != []
    && (forall m | m in messages[..|messages| - 1] :: m.Chunk? && m.more)
    && match messages[|messages| - 1]
       case Expired => status == 408
       case Chunk(_, more) =>
         && (forall m | m in messages :: m.Chunk?)
         && if |Joined(messages)| > 262_144 then status == 413
            else !more && |Joined(messages)| != declared && status == 400
       case _ => false
  }

  /** In every interleaving a request that reached the application, or was answered by it,
      carries exactly the bytes its own client sent, whole and of the declared length; one that
      was let in and rejected is answered by what its own last message was. */
  lemma {:induction false} ApplicationSeesWholeBody(states: seq<State>, steps: seq<Step>, i: nat, id: nat)
    requires Run(states, steps) && i < |states|
    ensures Assembled(states[i], id, ReceivedBy(steps[..i], id))
    ensures Live(states[i], id) && states[i].requests[id].phase.Running? ==>
              |states[i].requests[id].body| == states[i].requests[id].declared
  {
    RunsAreConsistent(states, steps, i);
    assert id in states[i].requests ==> Sound(states[i], id);
    if i > 0 {
      RunsAreConsistent(states, steps, i - 1);
      ApplicationSeesWholeBody(states, steps, i - 1, id);
      assert steps[..i][..i - 1] == steps[..i - 1];
      AssembledStep(states[i - 1], steps[i - 1], id, ReceivedBy(steps[..i - 1], id));
    }
  }

  lemma {:induction false} AssembledStep(s: State, step: Step, id: nat, messages: seq<Message>)
    requires Consistent(s) && Enabled(s, step) && Assembled(s, id, messages)
    ensures Assembled(Take(s, step), id,
                      messages + if step.Receive? && step.id == id then [step.message] else [])
  {
    if step.id != id {
      Untouched(s, step, id);
      assert messages + [] == messages;
    } else if step.Receive? {
      ReceiveAssembles(s, id, step.message, messages);
    } else {
      OwnStepAssembles(s, step, messages);
      assert messages + [] == messages;
    }
  }

  lemma OwnStepAssembles(s: State, step: Step, messages: seq<Message>)
    requires Consistent(s) && Enabled(s, step) && Assembled(s, step.id, messages) && !step.Receive?
    ensures Assembled(Take(s, step), step.id, messages)
  {}

  /** The two states hold the same of this request. */
  ghost predicate SameRequest(s: State, t: State, id: nat) {
    (id in t.requests <==> id in s.requests) && (id in s.requests ==> t.requests[id] == s.requests[id])
  }

  lemma Untouched(s: State, step: Step, id: nat)
    requires Consistent(s) && Enabled(s, step) && step.id != id
    ensures SameRequest(s, Take(s, step), id)
  {
    match step
    case Arrive(_, path, header, bearer) => UntouchedByArrival(s, step, id);
    case Receive(_, m) => UntouchedByMessage(s, step, id);
    case _ =>
  }

  lemma UntouchedByArrival(s: State, step: Step, id: nat)
    requires Consistent(s) && Enabled(s, step) && step.id != id && step.Arrive?
    ensures SameRequest(s, Take(s, step), id)
  {}

  lemma UntouchedByMessage(s: State, step: Step, id: nat)
    requires Consistent(s) && Enabled(s, step) && step.id != id && step.Receive?
    ensures SameRequest(s, Take(s, step), id)
  {}

  /** Steps on a request that is there leave its place, its caller and its length as admitted. */
  lemma IdentityStays(s: State, step: Step)
    requires Consistent(s) && Enabled(s, step) && !step.Arrive?
    ensures var s' := Take(s, step);
            && step.id in s.requests && step.id in s'.requests
            && var r, r' := s.requests[step.id], s'.requests[step.id];
               r'.admitted == r.admitted && r'.pool == r.pool && r'.caller == r.caller && r'.declared == r.declared
  {}

  /** This step let the request in, and with these particulars. */
  ghost predicate LetIn(step: Step, id: nat, r: Request) {
    && step.Arrive? && step.id == id
    && step.header == Length(r.declared) && r.declared <= 262_144
    && step.bearer == Authenticated(r.caller)
    && (r.pool == RecoveryPool <==> step.path in {"/v1/shadow/receipts/lookup", "/v1/shadow/status"})
  }

  lemma ArrivalLetsIn(s: State, step: Step)
    requires Consistent(s) && Enabled(s, step) && step.Arrive? && Take(s, step).requests[step.id].admitted
    ensures LetIn(step, step.id, Take(s, step).requests[step.id])
  {
    ArrivalIsAdmittedIff(s, step.id, step.path, step.header, step.bearer);
  }

  /** In every interleaving whoever holds a place, or ever held one, arrived authenticated as the
      caller it is counted under, with a permitted declared length, at its own pool. */
  lemma {:induction false} OnlyAuthenticatedHoldPlaces(states: seq<State>, steps: seq<Step>, i: nat, id: nat)
    requires Run(states, steps) && i < |states|
    requires id in states[i].requests && states[i].requests[id].admitted
    ensures exists k :: 0 <= k < i && LetIn(steps[k], id, states[i].requests[id])
  {
    RunsAreConsistent(states, steps, 0);
    if i > 0 {
      var s, step := states[i - 1], steps[i - 1];
      RunsAreConsistent(states, steps, i - 1);
      if step.id != id {
        Untouched(s, step, id);
        OnlyAuthenticatedHoldPlaces(states, steps, i - 1, id);
      } else if step.Arrive? {
        ArrivalLetsIn(s, step);
        assert LetIn(steps[i - 1], id, states[i].requests[id]);
      } else {
        IdentityStays(s, step);
        OnlyAuthenticatedHoldPlaces(states, steps, i - 1, id);
        var k :| 0 <= k < i - 1 && LetIn(steps[k], id, s.requests[id]);
        assert LetIn(steps[k], id, states[i].requests[id]);
      }
    }
  }

  lemma ReceiveAssembles(s: State, id: nat, m: Message, messages: seq<Message>)
    requires Consistent(s) && Enabled(s, Receive(id, m)) && Assembled(s, id, messages)
    ensures Assembled(Take(s, Receive(id, m)), id, messages + [m])
  {
    var more := messages + [m];
    var r := s.requests[id];
    assert more[..|more| - 1] == messages && more[..|more|] == more;
    assert forall x | x in more :: x in messages || x == m;
    match OnMessage(r.body, r.declared, m)
    case Continue(body) => assert body == Joined(more);
    case Finished(Deliver(body)) => {
      assert body == Joined(more);
      assert forall k | 0 <= k < |messages| :: more[k] == messages[k] && more[k] in messages;
    }
    case Finished(_) =>
  }
}
