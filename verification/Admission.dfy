/** Finite work admission and the fixed login-attempt window (strathmark/admission.py). */
module Admission {
  import opened Tallies

  // ---------------------------------------------------------------- work admission

  datatype Load = Load(active: nat, callers: map<string, nat>)

  /** Every reservation is counted once in total and once under its caller, no caller is
      over its share, and no caller with nothing in progress is remembered. */
  ghost predicate Balanced(load: Load, maximum: nat, perCaller: nat) {
    && load.active == Total(load.callers)
    && load.active <= maximum
    && forall c | c in load.callers :: 0 < load.callers[c] <= perCaller
  }

  predicate Room(load: Load, maximum: nat, perCaller: nat, caller: string) {
    load.active < maximum && Get(load.callers, caller) < perCaller
  }

  function Reserved(load: Load, caller: string): Load {
    Load(load.active + 1, load.callers[caller := Get(load.callers, caller) + 1])
  }

  function Returned(load: Load, caller: string): Load
    requires caller in load.callers && load.callers[caller] > 0 && load.active > 0
  {
    var remaining := load.callers[caller] - 1;
    Load(load.active - 1,
         if remaining > 0 then load.callers[caller := remaining] else load.callers - {caller})
  }

  lemma {:induction false} ReserveKeepsBalance(load: Load, maximum: nat, perCaller: nat, caller: string)
    requires Balanced(load, maximum, perCaller) && Room(load, maximum, perCaller, caller)
    ensures Balanced(Reserved(load, caller), maximum, perCaller)
  {
    TotalUpdate(load.callers, caller, Get(load.callers, caller) + 1);
  }

  /** A remembered caller always has something to return, and returning it keeps the books. */
  lemma {:induction false} ReturnKeepsBalance(load: Load, maximum: nat, perCaller: nat, caller: string)
    requires Balanced(load, maximum, perCaller) && caller in load.callers
    ensures load.active > 0
    ensures Balanced(Returned(load, caller), maximum, perCaller)
  {
    TotalWithout(load.callers, caller);
    TotalUpdate(load.callers, caller, load.callers[caller] - 1);
  }

  /** Return undoes reserve exactly, including forgetting a caller it had to add. */
  lemma ReturnUndoesReserve(load: Load, caller: string)
    requires caller in load.callers ==> load.callers[caller] > 0
    ensures Returned(Reserved(load, caller), caller) == load
  {
    var back := Returned(Reserved(load, caller), caller);
    assert back.callers == load.callers;
  }

  class WorkAdmission {
    const maximum: nat
    const perCaller: nat
    var active: nat
    var callers: map<string, nat>

    ghost predicate Valid() reads this {
      Balanced(Load(active, callers), maximum, perCaller)
    }

    constructor (maximum: nat, perCaller: nat)
      ensures Valid() && active == 0 && callers == map[]
      ensures this.maximum == maximum && this.perCaller == perCaller
    {
      this.maximum := maximum;
      this.perCaller := perCaller;
      active := 0;
      callers := map[];
    }

    method Acquire(caller: string) returns (admitted: bool)
      requires Valid()
      modifies this
      ensures Valid()
      ensures admitted <==> old(active) < maximum && Get(old(callers), caller) < perCaller
      ensures Load(active, callers) == if admitted then Reserved(old(Load(active, callers)), caller)
                                       else old(Load(active, callers))
    {
      if active >= maximum || Get(callers, caller) >= perCaller {
        return false;
      }
      ReserveKeepsBalance(Load(active, callers), maximum, perCaller, caller);
      active := active + 1;
      callers := callers[caller := Get(callers, caller) + 1];
      return true;
    }

    method Release(caller: string)
      requires Valid() && caller in callers
      modifies this
      ensures Valid()
      ensures old(active) > 0 && old(callers)[caller] > 0
      ensures Load(active, callers) == Returned(old(Load(active, callers)), caller)
    {
      ReturnKeepsBalance(Load(active, callers), maximum, perCaller, caller);
      active := active - 1;
      var remaining := callers[caller] - 1;
      if remaining != 0 {
        callers := callers[caller := remaining];
      } else {
        callers := callers - {caller};
      }
    }
  }

  // ---------------------------------------------------------------- login attempts

  datatype Limits = Limits(window: real, total: nat, perAccount: nat, perSource: nat)

  datatype Window = Window(started: real, attempts: nat, accounts: map<string, nat>, sources: map<string, nat>)

  datatype Call = Call(now: real, account: string, source: string)

  /** The three budgets a call draws on. */
  datatype Scope = Everyone | OfAccount(account: string) | OfSource(source: string)

  predicate Draws(c: Call, scope: Scope) {
    match scope
    case Everyone => true
    case OfAccount(a) => c.account == a
    case OfSource(s) => c.source == s
  }

  function Used(w: Window, scope: Scope): nat {
    match scope
    case Everyone => w.attempts
    case OfAccount(a) => Get(w.accounts, a)
    case OfSource(s) => Get(w.sources, s)
  }

  function Cap(limits: Limits, scope: Scope): nat {
    match scope
    case Everyone => limits.total
    case OfAccount(_) => limits.perAccount
    case OfSource(_) => limits.perSource
  }

  function Current(w: Window, limits: Limits, now: real): Window {
    if now - w.started >= limits.window then Window(now, 0, map[], map[]) else w
  }

  predicate Fits(w: Window, limits: Limits, c: Call) {
    && w.attempts < limits.total
    && Get(w.accounts, c.account) < limits.perAccount
    && Get(w.sources, c.source) < limits.perSource
  }

  function Charged(w: Window, c: Call): Window {
    Window(w.started, w.attempts + 1,
           w.accounts[c.account := Get(w.accounts, c.account) + 1],
           w.sources[c.source := Get(w.sources, c.source) + 1])
  }

  function After(w: Window, limits: Limits, c: Call): Window {
    var current := Current(w, limits, c.now);
    if Fits(current, limits, c) then Charged(current, c) else current
  }

  ghost predicate WithinLimits(w: Window, limits: Limits) {
    && (forall scope: Scope :: Used(w, scope) <= Cap(limits, scope))
    && Total(w.accounts) == w.attempts == Total(w.sources)
    && (forall a | a in w.accounts :: w.accounts[a] > 0)
    && (forall s | s in w.sources :: w.sources[s] > 0)
  }

  lemma ChargeWithinCaps(w: Window, limits: Limits, c: Call, scope: Scope)
    requires Used(w, scope) <= Cap(limits, scope) && Fits(w, limits, c)
    ensures Used(Charged(w, c), scope) <= Cap(limits, scope)
  {}

  lemma CallKeepsLimits(w: Window, limits: Limits, c: Call)
    requires WithinLimits(w, limits)
    ensures WithinLimits(After(w, limits, c), limits)
  {
    var current := Current(w, limits, c.now);
    assert WithinLimits(current, limits);
    if Fits(current, limits, c) {
      forall scope: Scope ensures Used(Charged(current, c), scope) <= Cap(limits, scope) {
        ChargeWithinCaps(current, limits, c, scope);
      }
      TotalUpdate(current.accounts, c.account, Get(current.accounts, c.account) + 1);
      TotalUpdate(current.sources, c.source, Get(current.sources, c.source) + 1);
    }
  }

  /** The tables stay finite: never more keys than the attempts they count. */
  lemma TablesAreBounded(w: Window, limits: Limits)
    requires WithinLimits(w, limits)
    ensures |w.accounts| <= w.attempts <= limits.total && |w.sources| <= w.attempts
  {
    TotalBounds(w.accounts);
    TotalBounds(w.sources);
    assert Used(w, Everyone) <= Cap(limits, Everyone);
  }

  class LoginAttempts {
    const limits: Limits
    var started: real
    var attempts: nat
    var accounts: map<string, nat>
    var sources: map<string, nat>

    ghost function State(): Window reads this {
      Window(started, attempts, accounts, sources)
    }

    ghost predicate Valid() reads this {
      WithinLimits(State(), limits)
    }

    constructor (limits: Limits, now: real)
      ensures Valid() && this.limits == limits && State() == Window(now, 0, map[], map[])
    {
      this.limits := limits;
      started := now;
      attempts := 0;
      accounts := map[];
      sources := map[];
    }

    method Admit(account: string, source: string, now: real) returns (admitted: bool)
      requires Valid()
      modifies this
      ensures Valid()
      ensures State() == After(old(State()), limits, Call(now, account, source))
      ensures admitted <==> Fits(Current(old(State()), limits, now), limits, Call(now, account, source))
      ensures |accounts| <= limits.total && |sources| <= limits.total
    {
      CallKeepsLimits(State(), limits, Call(now, account, source));
      TablesAreBounded(After(State(), limits, Call(now, account, source)), limits);
      admitted := Count(account, source, now);
    }

    /** The fields under the lock: a new window when the old one has passed, then the caps. */
    method Count(account: string, source: string, now: real) returns (admitted: bool)
      modifies this
      ensures State() == After(old(State()), limits, Call(now, account, source))
      ensures admitted <==> Fits(Current(old(State()), limits, now), limits, Call(now, account, source))
    {
      if now - started >= limits.window {
        started := now;
        attempts := 0;
        accounts := map[];
        sources := map[];
      }
      if attempts >= limits.total
         || Get(accounts, account) >= limits.perAccount
         || Get(sources, source) >= limits.perSource {
        return false;
      }
      attempts := attempts + 1;
      accounts := accounts[account := Get(accounts, account) + 1];
      sources := sources[source := Get(sources, source) + 1];
      return true;
    }
  }

  // ---------------------------------------------------------------- histories of login calls

  /** An admitted call together with the start of the window that admitted it. */
  datatype Entry = Entry(epoch: real, call: Call)

  function Admitted(w: Window, limits: Limits, calls: seq<Call>): seq<Entry>
    decreases |calls|
  {
    if calls == [] then []
    else
      var current := Current(w, limits, calls[0].now);
      (if Fits(current, limits, calls[0]) then [Entry(current.started, calls[0])] else [])
      + Admitted(After(w, limits, calls[0]), limits, calls[1..])
  }

  /** The clock never runs backwards, starting from the current window's start. */
  ghost predicate Monotone(from: real, calls: seq<Call>)
    decreases |calls|
  {
    calls != [] ==> from <= calls[0].now && Monotone(calls[0].now, calls[1..])
  }

  /** Each entry falls inside the window that admitted it, and that window is the current one
      or starts at least one length later. */
  lemma {:induction false} EntriesFallInside(w: Window, limits: Limits, from: real, calls: seq<Call>, x: Entry)
    requires w.started <= from && Monotone(from, calls) && x in Admitted(w, limits, calls)
    requires limits.window > 0.0
    ensures x.epoch <= x.call.now < x.epoch + limits.window
    ensures x.epoch == w.started || x.epoch >= w.started + limits.window
    decreases |calls|
  {
    var current := Current(w, limits, calls[0].now);
    if x != Entry(current.started, calls[0]) {
      EntriesFallInside(After(w, limits, calls[0]), limits, calls[0].now, calls[1..], x);
    }
  }

  lemma {:induction false} EpochsAreSpaced(w: Window, limits: Limits, from: real, calls: seq<Call>, x: Entry, y: Entry)
    requires w.started <= from && Monotone(from, calls)
    requires x in Admitted(w, limits, calls) && y in Admitted(w, limits, calls)
    requires limits.window > 0.0
    ensures x.epoch == y.epoch || x.epoch >= y.epoch + limits.window || y.epoch >= x.epoch + limits.window
    decreases |calls|
  {
    var current := Current(w, limits, calls[0].now);
    var after := After(w, limits, calls[0]);
    var rest := Admitted(after, limits, calls[1..]);
    if x in rest && y in rest {
      EpochsAreSpaced(after, limits, calls[0].now, calls[1..], x, y);
    } else if x in rest {
      EntriesFallInside(after, limits, calls[0].now, calls[1..], x);
    } else if y in rest {
      EntriesFallInside(after, limits, calls[0].now, calls[1..], y);
    }
  }

  function InEpoch(scope: Scope, epoch: real): Entry -> bool {
    (x: Entry) => x.epoch == epoch && Draws(x.call, scope)
  }

  function InInterval(scope: Scope, start: real, length: real): Entry -> bool {
    (x: Entry) => start <= x.call.now < start + length && Draws(x.call, scope)
  }

  /** One window never admits more than each budget, counting what it has already used. */
  lemma {:induction false} EpochWithinBudget(
      w: Window, limits: Limits, from: real, calls: seq<Call>, scope: Scope, epoch: real)
    requires WithinLimits(w, limits) && w.started <= from && Monotone(from, calls)
    requires limits.window > 0.0 && w.started <= epoch
    ensures CountIf(InEpoch(scope, epoch), Admitted(w, limits, calls))
            <= Cap(limits, scope) - if epoch == w.started then Used(w, scope) else 0
    decreases |calls|
  {
    assert Used(w, scope) <= Cap(limits, scope);
    if calls != [] {
      var c := calls[0];
      var current := Current(w, limits, c.now);
      var after := After(w, limits, c);
      var rest := Admitted(after, limits, calls[1..]);
      CallKeepsLimits(w, limits, c);
      if epoch < after.started {
        forall x | x in rest ensures !InEpoch(scope, epoch)(x) {
          EntriesFallInside(after, limits, c.now, calls[1..], x);
        }
        CountNone(InEpoch(scope, epoch), rest);
      } else {
        EpochWithinBudget(after, limits, c.now, calls[1..], scope, epoch);
      }
      var head := if Fits(current, limits, c) then [Entry(current.started, c)] else [];
      assert Admitted(w, limits, calls) == head + rest;
      if head != [] {
        assert (head + rest)[1..] == rest;
      } else {
        assert head + rest == rest;
      }
    }
  }

  /** The limiter's promise: whatever calls arrive on a clock that does not run backwards, no
      half-open interval as long as the window holds more than twice any of the budgets. */
  lemma {:induction false} AnyIntervalIsBounded(
      w: Window, limits: Limits, calls: seq<Call>, scope: Scope, start: real)
    requires WithinLimits(w, limits) && Monotone(w.started, calls)
    ensures CountIf(InInterval(scope, start, limits.window), Admitted(w, limits, calls))
            <= 2 * Cap(limits, scope)
  {
    var entries := Admitted(w, limits, calls);
    var within := InInterval(scope, start, limits.window);
    if !exists x :: x in entries && within(x) {
      CountNone(within, entries);
    } else {
      var x :| x in entries && within(x);
      var y := x;
      if z :| z in entries && within(z) && z.epoch != x.epoch {
        y := z;
      }
      forall z | z in entries && within(z)
        ensures InEpoch(scope, x.epoch)(z) || InEpoch(scope, y.epoch)(z)
      {
        AtMostTwoEpochs(w, limits, calls, start, x, y, z);
      }
      CountCovered(within, InEpoch(scope, x.epoch), InEpoch(scope, y.epoch), entries);
      EntriesFallInside(w, limits, w.started, calls, x);
      EntriesFallInside(w, limits, w.started, calls, y);
      EpochWithinBudget(w, limits, w.started, calls, scope, x.epoch);
      EpochWithinBudget(w, limits, w.started, calls, scope, y.epoch);
    }
  }

  lemma AtMostTwoEpochs(w: Window, limits: Limits, calls: seq<Call>, start: real, x: Entry, y: Entry, z: Entry)
    requires Monotone(w.started, calls) && limits.window > 0.0
    requires forall e | e in {x, y, z} :: e in Admitted(w, limits, calls) && start <= e.call.now < start + limits.window
    ensures x.epoch == y.epoch || y.epoch == z.epoch || x.epoch == z.epoch
  {
    forall e | e in {x, y, z} ensures start - limits.window < e.epoch < start + limits.window {
      EntriesFallInside(w, limits, w.started, calls, e);
    }
    assert x in {x, y, z} && y in {x, y, z} && z in {x, y, z};
    EpochsAreSpaced(w, limits, w.started, calls, x, y);
    EpochsAreSpaced(w, limits, w.started, calls, y, z);
    EpochsAreSpaced(w, limits, w.started, calls, x, z);
  }

  /** The factor two is needed: a burst at the end of one window and one at the start of the
      next are both admitted within a second. */
  lemma BurstsMeetAtTheBoundary()
    ensures var limits := Limits(60.0, 1, 1, 1);
            var calls := [Call(59.0, "a", "p"), Call(60.0, "a", "p")];
            var entries := Admitted(Window(0.0, 0, map[], map[]), limits, calls);
            CountIf(InInterval(Everyone, 59.0, 60.0), entries) == 2 * limits.total
  {
    var limits := Limits(60.0, 1, 1, 1);
    var w := Window(0.0, 0, map[], map[]);
    var first, second := Call(59.0, "a", "p"), Call(60.0, "a", "p");
    assert [first, second][1..] == [second];
    var w' := After(w, limits, first);
    assert Admitted(w', limits, [second]) == [Entry(60.0, second)];
    assert Admitted(w, limits, [first, second]) == [Entry(0.0, first)] + [Entry(60.0, second)];
    var within := InInterval(Everyone, 59.0, 60.0);
    assert ([Entry(0.0, first)] + [Entry(60.0, second)])[1..] == [Entry(60.0, second)];
    assert CountIf(within, [Entry(60.0, second)]) == 1;
  }
}
