/** The bounded worker slots of the trusted shadow routes (strathmark/api.py).

    Three pools have a semaphore and a thread pool of two each. A request takes a slot
    without waiting, hands its operation to the pool's threads and waits for it with a
    timeout; the slot comes back when the operation ends (its wrapper's `finally`), or for
    mirror replay when the finished future runs its callback. Requests, workers, timeouts
    and callbacks interleave freely. */
module ShadowSlots {
  import opened Wrappers
  import opened Tallies

  const SLOTS: nat := 2
  const THREADS: nat := 2

  datatype Pool = Critical | Recovery | Maintenance

  datatype Kind = Calculation | OutcomeWrite | ReceiptLookup | StatusRead | DriftRead | MirrorReplay

  function PoolOf(k: Kind): Pool {
    match k
    case Calculation => Critical
    case OutcomeWrite => Critical
    case ReceiptLookup => Recovery
    case StatusRead => Recovery
    case DriftRead => Maintenance
    case MirrorReplay => Maintenance
  }

  predicate IsRead(k: Kind) {
    k in {ReceiptLookup, StatusRead, DriftRead}
  }

  /** Queued for a thread; Working on one; Ending: the operation is over but the thread is
      still settling the future; Over, the thread is free again. */
  datatype Worker = Queued | Working | Ending | Over

  /** The done-callback of a mirror replay: not yet added to the future by the request thread,
      added, or run, by whichever thread found the future done. */
  datatype Callback = Unset | Added | Ran

  /** Grace is the extra half second a timed-out read gives its worker before it answers 504
      whatever the result; Raised, the operation's own exception reached the waiter. */
  datatype Waiter = Waiting | Grace | Answered | TimedOut | Raised

  datatype Op = Op(kind: Kind, worker: Worker, settled: bool, waiter: Waiter, callback: Callback)

  /** Who gave a slot back. */
  datatype Actor = OwnWorker(op: nat) | DoneCallback(op: nat)

  datatype Release = Release(op: nat, actor: Actor)

  datatype State = State(free: Pool -> nat, ops: map<nat, Op>, acquired: multiset<nat>, releases: multiset<Release>)

  datatype Step =
    | Request(op: nat, kind: Kind)
    | Start(op: nat)
    | Finish(op: nat)
    | Settle(op: nat)
    | AddCallback(op: nat)
    | Reply(op: nat)
    | Timeout(op: nat)
    | GiveUp(op: nat)
    | Raise(op: nat)

  function SetFree(free: Pool -> nat, p: Pool, n: nat): Pool -> nat {
    (q: Pool) => if q == p then n else free(q)
  }

  /** Operations that have not ended: those a slot is still owed for. */
  predicate Unfinished(o: Op) {
    if o.kind == MirrorReplay then o.callback != Ran else o.worker in {Queued, Working}
  }

  ghost function Holding(s: State, p: Pool): set<nat> {
    set op | op in s.ops && PoolOf(s.ops[op].kind) == p && Unfinished(s.ops[op])
  }

  ghost function OnThread(s: State, p: Pool): set<nat> {
    set op | op in s.ops && PoolOf(s.ops[op].kind) == p && s.ops[op].worker in {Working, Ending}
  }

  ghost function AtWork(s: State, p: Pool): set<nat> {
    set op | op in s.ops && PoolOf(s.ops[op].kind) == p && s.ops[op].worker == Working
  }

  ghost predicate Enabled(s: State, step: Step) {
    if step.Request? then step.op !in s.ops
    else
      && step.op in s.ops
      && var o := s.ops[step.op];
         match step
         case Start(_) => o.worker == Queued && |OnThread(s, PoolOf(o.kind))| < THREADS
         case Finish(_) => o.worker == Working
         case Settle(_) => o.worker == Ending
         case AddCallback(_) => o.kind == MirrorReplay && o.callback == Unset
         case Reply(_) => o.settled && o.waiter == Waiting && ListensTo(o)
         case Raise(_) => o.settled && o.waiter in {Waiting, Grace} && ListensTo(o)
         case Timeout(_) => o.waiter == Waiting && ListensTo(o)
         case GiveUp(_) => o.waiter == Grace
  }

  /** The request thread waits for the result; for mirror replay, once it has added the callback. */
  predicate ListensTo(o: Op) {
    o.kind == MirrorReplay ==> o.callback != Unset
  }

  function Put(s: State, op: nat, o: Op): State {
    s.(ops := s.ops[op := o])
  }

  /** Giving a slot back; a bounded semaphore would refuse to go above its capacity. */
  function GiveBack(s: State, p: Pool, r: Release): State {
    s.(free := SetFree(s.free, p, s.free(p) + 1), releases := s.releases + multiset{r})
  }

  function RunCallback(s: State, op: nat, o: Op): State {
    GiveBack(Put(s, op, o.(callback := Ran)), PoolOf(o.kind), Release(op, DoneCallback(op)))
  }

  ghost function Take(s: State, step: Step): State
    requires Enabled(s, step)
  {
    match step
    case Request(op, kind) =>
      var p := PoolOf(kind);
      if s.free(p) == 0 then s
      else
        Put(s, op, Op(kind, Queued, false, Waiting, Unset)).(
          free := SetFree(s.free, p, s.free(p) - 1), acquired := s.acquired + multiset{op})
    case Start(op) => Put(s, op, s.ops[op].(worker := Working))
    case Finish(op) =>
      var o := s.ops[op];
      if o.kind == MirrorReplay then Put(s, op, o.(worker := Ending, settled := true))
      else GiveBack(Put(s, op, o.(worker := Ending)), PoolOf(o.kind), Release(op, OwnWorker(op)))
    case Settle(op) =>
      var o := s.ops[op];
      if o.kind != MirrorReplay then Put(s, op, o.(worker := Over, settled := true))
      else if o.callback != Added then Put(s, op, o.(worker := Over))
      else RunCallback(s, op, o.(worker := Over))
    case AddCallback(op) =>
      var o := s.ops[op];
      if o.settled then RunCallback(s, op, o) else Put(s, op, o.(callback := Added))
    case Reply(op) => Put(s, op, s.ops[op].(waiter := Answered))
    case Timeout(op) =>
      Put(s, op, s.ops[op].(waiter := if IsRead(s.ops[op].kind) then Grace else TimedOut))
    case GiveUp(op) => Put(s, op, s.ops[op].(waiter := TimedOut))
    case Raise(op) => Put(s, op, s.ops[op].(waiter := Raised))
  }

  const START := State((p: Pool) => SLOTS, map[], multiset{}, multiset{})

  /** The only release an operation may ever have. */
  function OwnRelease(op: nat, k: Kind): Release {
    Release(op, if k == MirrorReplay then DoneCallback(op) else OwnWorker(op))
  }

  ghost predicate Accounted(s: State, p: Pool) {
    s.free(p) + |Holding(s, p)| == SLOTS
  }

  ghost predicate Settled(s: State, op: nat)
    requires op in s.ops
  {
    var o := s.ops[op];
    && s.acquired[op] == 1
    && s.releases[OwnRelease(op, o.kind)] == (if Unfinished(o) then 0 else 1)
    && (forall a | Release(op, a) != OwnRelease(op, o.kind) :: s.releases[Release(op, a)] == 0)
    && (o.settled <==> if o.kind == MirrorReplay then o.worker in {Ending, Over} else o.worker == Over)
    && (o.callback == Ran ==> o.settled)
    && (o.kind == MirrorReplay && o.callback == Added ==> o.worker != Over)
    && (o.kind != MirrorReplay ==> o.callback == Unset)
  }

  ghost predicate Unheard(s: State, op: nat) {
    op !in s.ops && s.acquired[op] == 0 && forall a :: s.releases[Release(op, a)] == 0
  }

  ghost predicate Consistent(s: State) {
    && Accounted(s, Critical) && Accounted(s, Recovery) && Accounted(s, Maintenance)
    && (forall op :: if op in s.ops then Settled(s, op) else Unheard(s, op))
  }

  lemma StartIsConsistent()
    ensures Consistent(START)
  {
    forall p: Pool ensures Accounted(START, p) {
      assert Holding(START, p) == {};
    }
  }

  /** An update of one operation that leaves its slot situation as it was. */
  lemma {:induction false} PutKeepsHolding(s: State, op: nat, o: Op, p: Pool)
    requires op in s.ops && o.kind == s.ops[op].kind && Unfinished(o) == Unfinished(s.ops[op])
    ensures Holding(Put(s, op, o), p) == Holding(s, p)
  {}

  lemma {:induction false} ReleaseKeepsAccounts(s: State, op: nat, o: Op, r: Release, p: Pool)
    requires Accounted(s, p)
    requires op in s.ops && o.kind == s.ops[op].kind && Unfinished(s.ops[op]) && !Unfinished(o)
    ensures p == PoolOf(o.kind) ==> s.free(p) < SLOTS
    ensures Accounted(GiveBack(Put(s, op, o), PoolOf(o.kind), r), p)
  {
    var s' := GiveBack(Put(s, op, o), PoolOf(o.kind), r);
    assert Holding(s', p) == Holding(s, p) - {op};
    assert op in Holding(s, p) <==> p == PoolOf(o.kind);
  }

  lemma AdmittedHolds(s: State, op: nat, kind: Kind, p: Pool)
    requires op !in s.ops && s.free(PoolOf(kind)) > 0
    ensures Holding(Take(s, Request(op, kind)), p) == Holding(s, p) + if p == PoolOf(kind) then {op} else {}
    ensures op !in Holding(s, p)
  {}

  lemma {:induction false} RequestKeepsAccounts(s: State, op: nat, kind: Kind, p: Pool)
    requires Accounted(s, p) && op !in s.ops && s.free(PoolOf(kind)) > 0
    ensures Accounted(Take(s, Request(op, kind)), p)
  {
    AdmittedHolds(s, op, kind, p);
    assert Take(s, Request(op, kind)).free(p) == if p == PoolOf(kind) then s.free(p) - 1 else s.free(p);
  }

  lemma {:induction false} StepAccounts(s: State, step: Step, p: Pool)
    requires Accounted(s, p) && Enabled(s, step)
    ensures Accounted(Take(s, step), p)
  {
    match step
    case Request(op, kind) => if s.free(PoolOf(kind)) > 0 { RequestKeepsAccounts(s, op, kind, p); }
    case Finish(op) => {
      var o := s.ops[op];
      if o.kind == MirrorReplay {
        PutKeepsHolding(s, op, o.(worker := Ending, settled := true), p);
      } else {
        ReleaseKeepsAccounts(s, op, o.(worker := Ending), Release(op, OwnWorker(op)), p);
      }
    }
    case Settle(op) => {
      var o := s.ops[op];
      if o.kind != MirrorReplay {
        PutKeepsHolding(s, op, o.(worker := Over, settled := true), p);
      } else if o.callback != Added {
        PutKeepsHolding(s, op, o.(worker := Over), p);
      } else {
        ReleaseKeepsAccounts(s, op, o.(worker := Over, callback := Ran), Release(op, DoneCallback(op)), p);
      }
    }
    case AddCallback(op) => {
      var o := s.ops[op];
      if o.settled {
        ReleaseKeepsAccounts(s, op, o.(callback := Ran), Release(op, DoneCallback(op)), p);
      } else {
        PutKeepsHolding(s, op, o.(callback := Added), p);
      }
    }
    case _ => PutKeepsHolding(s, step.op, Take(s, step).ops[step.op], p);
  }

  lemma StepElsewhere(s: State, step: Step, op: nat)
    requires Enabled(s, step) && op != step.op
    ensures var s' := Take(s, step);
            && (op in s'.ops <==> op in s.ops)
            && (op in s.ops ==> s'.ops[op] == s.ops[op])
            && s'.acquired[op] == s.acquired[op]
            && (forall a :: s'.releases[Release(op, a)] == s.releases[Release(op, a)])
  {}

  lemma StepHere(s: State, step: Step)
    requires Enabled(s, step)
    requires if step.op in s.ops then Settled(s, step.op) else Unheard(s, step.op)
    ensures var s' := Take(s, step); if step.op in s'.ops then Settled(s', step.op) else Unheard(s', step.op)
  {}

  lemma {:induction false} StepKeepsConsistent(s: State, step: Step)
    requires Consistent(s) && Enabled(s, step)
    ensures Consistent(Take(s, step))
  {
    var s' := Take(s, step);
    assert Accounted(s', Critical) && Accounted(s', Recovery) && Accounted(s', Maintenance) by {
      StepAccounts(s, step, Critical);
      StepAccounts(s, step, Recovery);
      StepAccounts(s, step, Maintenance);
    }
    forall op ensures if op in s'.ops then Settled(s', op) else Unheard(s', op) {
      if op == step.op {
        StepHere(s, step);
      } else {
        StepElsewhere(s, step, op);
      }
    }
  }

  ghost predicate Run(states: seq<State>, steps: seq<Step>) {
    && |states| == |steps| + 1
    && states[0] == START
    && forall i | 0 <= i < |steps| :: Enabled(states[i], steps[i]) && states[i + 1] == Take(states[i], steps[i])
  }

  lemma {:induction false} RunsAreConsistent(states: seq<State>, steps: seq<Step>, i: nat)
    requires Run(states, steps) && i < |states|
    ensures Consistent(states[i])
  {
    if i == 0 {
      StartIsConsistent();
    } else {
      RunsAreConsistent(states, steps, i - 1);
      StepKeepsConsistent(states[i - 1], steps[i - 1]);
    }
  }

  /** Over every interleaving: each pool's free slots and unfinished operations add up to its
      capacity; every operation took one slot and gives it back at most once, when it has
      ended and never before, whatever its waiter did; and only its own worker, or its own
      future's callback for mirror replay, gives it back. */
  lemma {:induction false} SlotsAreConserved(states: seq<State>, steps: seq<Step>, i: nat)
    requires Run(states, steps) && i < |states|
    ensures var s := states[i];
            && (forall p: Pool :: s.free(p) + |Holding(s, p)| == SLOTS)
            && (forall op :: op in s.ops <==> s.acquired[op] == 1)
            && (forall op :: s.acquired[op] <= 1)
            && (forall r :: s.releases[r] <= 1)
            && (forall r | s.releases[r] > 0 ::
                  r.op in s.ops && !Unfinished(s.ops[r.op]) &&
                  r.actor == if s.ops[r.op].kind == MirrorReplay then DoneCallback(r.op) else OwnWorker(r.op))
            && (forall op | op in s.ops && !Unfinished(s.ops[op]) :: s.releases[OwnRelease(op, s.ops[op].kind)] == 1)
  {
    RunsAreConsistent(states, steps, i);
    var s := states[i];
    forall p: Pool ensures s.free(p) + |Holding(s, p)| == SLOTS {
      assert Accounted(s, p);
    }
    forall op ensures s.acquired[op] <= 1 && (op in s.ops <==> s.acquired[op] == 1) {
      assert op in s.ops ==> Settled(s, op);
    }
    forall r
      ensures s.releases[r] <= 1
      ensures s.releases[r] > 0 ==>
                r.op in s.ops && !Unfinished(s.ops[r.op]) && r == OwnRelease(r.op, s.ops[r.op].kind)
    {
      assert r == Release(r.op, r.actor);
      assert r.op in s.ops ==> Settled(s, r.op);
    }
    forall op | op in s.ops && !Unfinished(s.ops[op]) ensures s.releases[OwnRelease(op, s.ops[op].kind)] == 1 {
      assert Settled(s, op);
    }
  }

  /** A timed-out write or calculation keeps its slot until its worker stops: at no later
      moment of the run is the slot given back while the operation is queued or at work. */
  lemma {:induction false} TimeoutKeepsSlot(states: seq<State>, steps: seq<Step>, i: nat, j: nat)
    requires Run(states, steps) && i <= j < |states|
    requires i < |steps| && steps[i].Timeout?
    ensures steps[i].op in states[j].ops
    ensures var o := states[j].ops[steps[i].op];
            Unfinished(o) ==> && steps[i].op in Holding(states[j], PoolOf(o.kind))
                              && states[j].free(PoolOf(o.kind)) < SLOTS
                              && states[j].releases[OwnRelease(steps[i].op, o.kind)] == 0
  {
    OpsPersist(states, steps, i, j, steps[i].op);
    RunsAreConsistent(states, steps, j);
    var s := states[j];
    var o := s.ops[steps[i].op];
    assert Settled(s, steps[i].op);
    if Unfinished(o) {
      assert steps[i].op in Holding(s, PoolOf(o.kind));
      assert Accounted(s, PoolOf(o.kind));
    }
  }

  lemma {:induction false} OpsPersist(states: seq<State>, steps: seq<Step>, i: nat, j: nat, op: nat)
    requires Run(states, steps) && i <= j < |states| && op in states[i].ops
    ensures op in states[j].ops && states[j].ops[op].kind == states[i].ops[op].kind
    decreases j
  {
    if i < j {
      OpsPersist(states, steps, i, j - 1, op);
    }
  }

  /** A thread pool as large as its semaphore: an admitted operation that still waits for a
      thread never waits behind two operations at work. */
  lemma {:induction false} AdmittedNeverWaitsForWork(states: seq<State>, steps: seq<Step>, i: nat, op: nat)
    requires Run(states, steps) && i < |states|
    requires op in states[i].ops && states[i].ops[op].worker == Queued
    ensures |AtWork(states[i], PoolOf(states[i].ops[op].kind))| < THREADS
  {
    RunsAreConsistent(states, steps, i);
    var s, p := states[i], PoolOf(states[i].ops[op].kind);
    assert Accounted(s, p);
    assert AtWork(s, p) + {op} <= Holding(s, p);
    SubsetsAreSmaller(AtWork(s, p) + {op}, Holding(s, p));
  }

  // ---------------------------------------------------------------- pools do not interfere

  /** What one pool's operations can see of an operation, and of the state. */
  function View(s: State, op: nat, p: Pool): Option<Op> {
    if op in s.ops && PoolOf(s.ops[op].kind) == p then Some(s.ops[op]) else None
  }

  ghost predicate SameView(s: State, t: State, p: Pool) {
    s.free(p) == t.free(p) && forall op :: View(s, op, p) == View(t, op, p)
  }

  ghost predicate Concerns(s: State, step: Step, p: Pool) {
    if step.Request? then PoolOf(step.kind) == p else View(s, step.op, p).Some?
  }

  lemma {:induction false} OthersLeaveViewAlone(s: State, step: Step, p: Pool)
    requires Enabled(s, step) && !Concerns(s, step, p)
    ensures SameView(s, Take(s, step), p)
  {
    forall op ensures View(s, op, p) == View(Take(s, step), op, p) {
      if op != step.op {
        StepElsewhere(s, step, op);
      }
    }
  }

  lemma {:induction false} SameThreads(s: State, t: State, p: Pool)
    requires SameView(s, t, p)
    ensures OnThread(s, p) == OnThread(t, p)
  {
    forall op ensures op in OnThread(s, p) <==> op in OnThread(t, p) {
      assert View(s, op, p) == View(t, op, p);
    }
  }

  lemma {:induction false} OwnStepsUseOnlyView(s: State, t: State, step: Step, p: Pool)
    requires SameView(s, t, p) && Concerns(s, step, p) && Enabled(s, step)
    requires step.Request? ==> step.op !in t.ops
    ensures Enabled(t, step) && SameView(Take(s, step), Take(t, step), p)
  {
    assert View(s, step.op, p) == View(t, step.op, p);
    SameThreads(s, t, p);
    OwnStepHere(s, t, step, p);
    forall op ensures View(Take(s, step), op, p) == View(Take(t, step), op, p) {
      if op != step.op {
        StepElsewhere(s, step, op);
        StepElsewhere(t, step, op);
        assert View(s, op, p) == View(t, op, p);
      }
    }
  }

  lemma OwnStepHere(s: State, t: State, step: Step, p: Pool)
    requires s.free(p) == t.free(p) && View(s, step.op, p) == View(t, step.op, p)
    requires Enabled(s, step) && Enabled(t, step) && Concerns(s, step, p)
    ensures Take(s, step).free(p) == Take(t, step).free(p)
    ensures View(Take(s, step), step.op, p) == View(Take(t, step), step.op, p)
  {}

  /** The steps of a run that concern one pool. */
  ghost function OwnSteps(states: seq<State>, steps: seq<Step>, p: Pool, n: nat): seq<Step>
    requires Run(states, steps) && n <= |steps|
  {
    if n == 0 then []
    else
      OwnSteps(states, steps, p, n - 1)
      + if Concerns(states[n - 1], steps[n - 1], p) then [steps[n - 1]] else []
  }

  /** The state shows the pool what the other shows, and has no operation of another pool. */
  ghost predicate Alone(s: State, p: Pool, t: State) {
    && SameView(t, s, p)
    && s.ops.Keys <= t.ops.Keys
    && forall op | op in s.ops :: PoolOf(s.ops[op].kind) == p
  }

  lemma AloneTakes(s: State, t: State, step: Step, p: Pool)
    requires Alone(s, p, t) && Enabled(t, step) && Concerns(t, step, p)
    ensures Enabled(s, step) && Alone(Take(s, step), p, Take(t, step))
  {
    OwnStepsUseOnlyView(t, s, step, p);
    forall op ensures op in Take(s, step).ops ==> op in Take(t, step).ops && PoolOf(Take(s, step).ops[op].kind) == p {
      assert View(Take(s, step), op, p) == View(Take(t, step), op, p);
      if op != step.op {
        StepElsewhere(s, step, op);
        StepElsewhere(t, step, op);
      }
    }
  }

  lemma AloneWaits(s: State, t: State, step: Step, p: Pool)
    requires Alone(s, p, t) && Enabled(t, step) && !Concerns(t, step, p)
    ensures Alone(s, p, Take(t, step))
  {
    OthersLeaveViewAlone(t, step, p);
    forall op ensures View(s, op, p) == View(Take(t, step), op, p) {
      assert View(s, op, p) == View(t, op, p) == View(Take(t, step), op, p);
    }
  }

  /** No pool costs another one anything: a pool's own steps are a run by themselves, in which
      no other pool has an operation and after which its operations, its free slots and so its
      next admission are the same. */
  lemma {:induction false} PoolsDoNotInterfere(states: seq<State>, steps: seq<Step>, p: Pool, n: nat)
      returns (alone: seq<State>)
    requires Run(states, steps) && n <= |steps|
    ensures Run(alone, OwnSteps(states, steps, p, n))
    ensures Alone(alone[|alone| - 1], p, states[n])
  {
    if n == 0 {
      alone := [START];
    } else {
      var own := OwnSteps(states, steps, p, n - 1);
      alone := PoolsDoNotInterfere(states, steps, p, n - 1);
      var s, step := alone[|alone| - 1], steps[n - 1];
      if Concerns(states[n - 1], step, p) {
        AloneTakes(s, states[n - 1], step, p);
        RunGoesOn(alone, own, step);
        alone := alone + [Take(s, step)];
      } else {
        AloneWaits(s, states[n - 1], step, p);
        assert OwnSteps(states, steps, p, n) == own;
      }
    }
  }

  lemma RunGoesOn(states: seq<State>, steps: seq<Step>, step: Step)
    requires Run(states, steps) && Enabled(states[|states| - 1], step)
    ensures Run(states + [Take(states[|states| - 1], step)], steps + [step])
  {}

  // ---------------------------------------------------------------- by the kinds of work

  ghost function Pending(s: State, kinds: set<Kind>): set<nat> {
    set op | op in s.ops && s.ops[op].kind in kinds && Unfinished(s.ops[op])
  }

  /** Calculations and outcome writes share two slots, receipt lookups and status reads two,
      drift reads and mirror replays two; at every moment of every run what is not free of them
      is one unfinished operation of those kinds each. */
  lemma SlotsByKind(states: seq<State>, steps: seq<Step>, i: nat)
    requires Run(states, steps) && i < |states|
    ensures states[i].free(Critical) + |Pending(states[i], {Calculation, OutcomeWrite})| == 2
    ensures states[i].free(Recovery) + |Pending(states[i], {ReceiptLookup, StatusRead})| == 2
    ensures states[i].free(Maintenance) + |Pending(states[i], {DriftRead, MirrorReplay})| == 2
  {
    var s := states[i];
    RunsAreConsistent(states, steps, i);
    assert Holding(s, Critical) == Pending(s, {Calculation, OutcomeWrite});
    assert Holding(s, Recovery) == Pending(s, {ReceiptLookup, StatusRead});
    assert Holding(s, Maintenance) == Pending(s, {DriftRead, MirrorReplay});
    assert Accounted(s, Critical) && Accounted(s, Recovery) && Accounted(s, Maintenance);
  }

  /** The kind of work a step is about. */
  ghost function KindOf(s: State, step: Step): Kind
    requires Enabled(s, step)
  {
    if step.Request? then step.kind else s.ops[step.op].kind
  }

  /** No step of a read or of a mirror replay takes or returns a slot of calculations and
      writes, nor the other way round, and no step of maintenance one of the recovery reads. */
  lemma StepsKeepToTheirSlots(s: State, step: Step)
    requires Enabled(s, step)
    ensures KindOf(s, step) in {ReceiptLookup, StatusRead, DriftRead, MirrorReplay} ==>
      Take(s, step).free(Critical) == s.free(Critical)
    ensures KindOf(s, step) in {Calculation, OutcomeWrite, DriftRead, MirrorReplay} ==>
      Take(s, step).free(Recovery) == s.free(Recovery)
    ensures KindOf(s, step) in {Calculation, OutcomeWrite, ReceiptLookup, StatusRead} ==>
      Take(s, step).free(Maintenance) == s.free(Maintenance)
  {}

  /** A request is refused exactly while two operations of the kinds it shares its slots with
      are unfinished, timed out or not; once admitted it waits in the queue. */
  lemma RefusedIffTwoUnfinished(states: seq<State>, steps: seq<Step>, i: nat, op: nat, kind: Kind)
    requires Run(states, steps) && i < |states| && op !in states[i].ops
    ensures
      var s := states[i];
      var after := Take(s, Request(op, kind));
      var shared := if kind in {Calculation, OutcomeWrite} then {Calculation, OutcomeWrite}
                    else if kind in {ReceiptLookup, StatusRead} then {ReceiptLookup, StatusRead}
                    else {DriftRead, MirrorReplay};
      && (|Pending(s, shared)| == 2 ==> after == s)
      && (|Pending(s, shared)| != 2 ==> |Pending(s, shared)| < 2 && op in after.ops
                                        && after.ops[op] == Op(kind, Queued, false, Waiting, Unset))
  {
    SlotsByKind(states, steps, i);
  }

  /** No pool ever has more than two threads taken, and a queued operation may start as long as
      one is free. */
  lemma {:induction false} TwoThreads(states: seq<State>, steps: seq<Step>, i: nat, p: Pool)
    requires Run(states, steps) && i < |states|
    ensures |OnThread(states[i], p)| <= 2
    ensures forall op | op in states[i].ops && states[i].ops[op].worker == Queued && PoolOf(states[i].ops[op].kind) == p ::
      Enabled(states[i], Start(op)) <==> |OnThread(states[i], p)| != 2
  {
    if i == 0 {
      assert OnThread(START, p) == {};
    } else {
      TwoThreads(states, steps, i - 1, p);
      StepsKeepThreads(states[i - 1], steps[i - 1], p);
    }
  }

  lemma StepsKeepThreads(s: State, step: Step, p: Pool)
    requires Enabled(s, step) && |OnThread(s, p)| <= 2
    ensures |OnThread(Take(s, step), p)| <= 2
  {
    var s' := Take(s, step);
    forall op ensures op in OnThread(s', p) ==> op in OnThread(s, p) + {step.op} {
      if op != step.op {
        StepElsewhere(s, step, op);
      }
    }
    if step.Start? && PoolOf(s.ops[step.op].kind) == p {
      SubsetsAreSmaller(OnThread(s', p), OnThread(s, p) + {step.op});
    } else {
      assert step.op in OnThread(s', p) ==> step.op in OnThread(s, p);
      SubsetsAreSmaller(OnThread(s', p), OnThread(s, p));
    }
  }

  // ---------------------------------------------------------------- what the waiter is told

  /** The waiter has stopped waiting for a result. */
  predicate HasTimedOut(o: Op) {
    o.waiter in {Grace, TimedOut}
  }

  /** Whoever has timed out is never answered, however soon the result comes; only reads get
      the extra half second. */
  lemma {:induction false} TimeoutIsFinal(states: seq<State>, steps: seq<Step>, i: nat, j: nat, op: nat)
    requires Run(states, steps) && i <= j < |states|
    requires op in states[i].ops && HasTimedOut(states[i].ops[op])
    ensures op in states[j].ops && states[j].ops[op].waiter != Answered && states[j].ops[op].waiter != Waiting
    ensures states[i].ops[op].waiter == TimedOut ==> states[j].ops[op].waiter == TimedOut
    decreases j
  {
    OpsPersist(states, steps, i, j, op);
    if i < j {
      TimeoutIsFinal(states, steps, i, j - 1, op);
    }
  }

  /** When a waiter can move: a settled operation can be answered while it waits and can raise
      until it has timed out, a timeout can come at any time while it waits; for a mirror replay
      all this once the callback is on the future. */
  lemma WaitersMayMove(s: State, op: nat)
    requires op in s.ops
    ensures
      var o := s.ops[op];
      var heard := o.kind == MirrorReplay ==> o.callback != Unset;
      && (Enabled(s, Reply(op)) <==> heard && o.settled && o.waiter == Waiting)
      && (Enabled(s, Raise(op)) <==> heard && o.settled && (o.waiter == Waiting || o.waiter == Grace))
      && (Enabled(s, Timeout(op)) <==> heard && o.waiter == Waiting)
      && (Enabled(s, GiveUp(op)) <==> o.waiter == Grace)
  {}

  /** How a waiter moves: to an answer or an exception from a settled result, to a timeout at
      once, or by way of the grace period for a read. */
  ghost predicate WaiterMoves(before: Op, after: Op, step: Step) {
    match after.waiter
    case Waiting => false
    case Grace =>
      step.Timeout? && before.waiter == Waiting && before.kind in {ReceiptLookup, StatusRead, DriftRead}
    case Answered => step.Reply? && before.waiter == Waiting && before.settled
    case TimedOut =>
      || (step.Timeout? && before.waiter == Waiting && before.kind in {Calculation, OutcomeWrite, MirrorReplay})
      || (step.GiveUp? && before.waiter == Grace)
    case Raised => step.Raise? && before.waiter in {Waiting, Grace} && before.settled
  }

  /** These are the only moves of a waiter, and each of its steps is one. */
  lemma WaitersMove(s: State, step: Step, op: nat)
    requires Enabled(s, step) && op in s.ops
    ensures op in Take(s, step).ops
    ensures
      var before, after := s.ops[op], Take(s, step).ops[op];
      if op == step.op && (step.Timeout? || step.GiveUp? || step.Reply? || step.Raise?) then
        WaiterMoves(before, after, step) && after == before.(waiter := after.waiter)
      else after.waiter == before.waiter
  {
    if op != step.op {
      StepElsewhere(s, step, op);
    }
  }

  /** An answer, or an exception, is of a settled operation; only reads are ever in their grace
      period; and a mirror replay has its callback before anybody waits for it. */
  ghost predicate Heard(o: Op) {
    && (o.waiter in {Answered, Raised} ==> o.settled)
    && (o.waiter == Grace ==> o.kind in {ReceiptLookup, StatusRead, DriftRead})
    && (o.kind == MirrorReplay && o.waiter != Waiting ==> o.callback != Unset)
  }

  lemma StepKeepsHeard(s: State, step: Step, op: nat)
    requires Enabled(s, step) && op in Take(s, step).ops && (op in s.ops ==> Heard(s.ops[op]))
    ensures Heard(Take(s, step).ops[op])
  {
    if op != step.op {
      StepElsewhere(s, step, op);
    }
  }

  lemma {:induction false} WaitersAreHonest(states: seq<State>, steps: seq<Step>, i: nat, op: nat)
    requires Run(states, steps) && i < |states| && op in states[i].ops
    ensures Heard(states[i].ops[op])
  {
    if i > 0 {
      if op in states[i - 1].ops {
        WaitersAreHonest(states, steps, i - 1, op);
      }
      StepKeepsHeard(states[i - 1], steps[i - 1], op);
    }
  }
}
