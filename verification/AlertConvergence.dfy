/** What repeated, reordered and interrupted deliveries do to one run's alert.

    The issue list is abstracted to a Status per run and an event to a Fact; the
    refinement lemma connects them, and the main theorems are about whole histories. */
module AlertConvergence {
  import opened Wrappers
  import opened ReleaseAlert

  datatype Status = Absent | Open(attempt: nat) | Closed(attempt: nat)

  /** The part of an event that matters to one run. */
  datatype Fact = Failed(attempt: nat) | Recovered(attempt: nat)

  function FactOf(e: Event, repository: string, key: Key): Option<Fact> {
    if !Relevant(e, repository) || Key(e.name, e.run) != key then None
    else if e.conclusion != "success" then Some(Failed(e.attempt))
    else if e.name == PUBLISH && !e.publisherSucceeded then None
    else Some(Recovered(e.attempt))
  }

  function StatusOf(issues: seq<Issue>, key: Key): Status {
    match Find(issues, key)
    case None => Absent
    case Some(n) =>
      if issues[n].open then Open(issues[n].marker.value.attempt) else Closed(issues[n].marker.value.attempt)
  }

  ghost predicate Numbered(issues: seq<Issue>) {
    forall i | 0 <= i < |issues| :: issues[i].number == i
  }

  ghost predicate OneAlertPerRun(issues: seq<Issue>) {
    forall key, i, j | 0 <= i < |issues| && 0 <= j < |issues|
      && IsAlert(issues[i], key) && IsAlert(issues[j], key) :: i == j
  }

  /** The uninterrupted transition. */
  function Next(s: Status, f: Fact): Status {
    match f
    case Failed(a) => if s.Absent? || a > s.attempt then Open(a) else s
    case Recovered(a) => if s.Open? && a >= s.attempt then Closed(a) else s
  }

  /** The statuses a delivery passes through, one per issue command. */
  function Path(s: Status, f: Fact): seq<Status> {
    match f
    case Failed(a) =>
      if s.Absent? then [Open(a)]
      else if a <= s.attempt then []
      else (if s.Closed? then [Open(s.attempt)] else []) + [Open(a), Open(a)]
    case Recovered(a) =>
      if s.Open? && a >= s.attempt then [Open(a), Closed(a)] else []
  }

  function CutNext(s: Status, f: Fact, cut: nat): Status {
    var path := Path(s, f);
    if cut == 0 || path == [] then s else path[Min(cut, |path|) - 1]
  }

  lemma WholePath(s: Status, f: Fact, cut: nat)
    requires cut >= LONGEST_PLAN
    ensures CutNext(s, f, cut) == Next(s, f)
  {}

  // ---------------------------------------------------------------- refinement

  /** What one issue command does to the status of the run whose alert it names. */
  function Effect(s: Status, c: Command): Status {
    match c
    case Create(_, marker) => Open(marker.attempt)
    case Reopen(_) => if s.Absent? then s else Open(s.attempt)
    case Edit(_, marker) => if s.Absent? then s else if s.Open? then Open(marker.attempt) else Closed(marker.attempt)
    case Close(_) => if s.Absent? then s else Closed(s.attempt)
    case Comment(_, _) => s
  }

  function Effects(s: Status, commands: seq<Command>): Status
    decreases |commands|
  {
    if commands == [] then s else Effects(Effect(s, commands[0]), commands[1..])
  }

  ghost predicate Amends(c: Command, n: nat, key: Key) {
    && !c.Create?
    && c.number == n
    && (c.Edit? ==> c.marker.run == key.run)
  }

  lemma FindIs(issues: seq<Issue>, key: Key, n: nat)
    requires n < |issues| && IsAlert(issues[n], key)
    requires forall i | 0 <= i < n :: !IsAlert(issues[i], key)
    ensures Find(issues, key) == Some(n)
  {}

  lemma FindSame(before: seq<Issue>, after: seq<Issue>, key: Key)
    requires |before| == |after|
    requires forall i | 0 <= i < |before| :: IsAlert(before[i], key) == IsAlert(after[i], key)
    ensures Find(before, key) == Find(after, key)
  {
    if Find(before, key).Some? {
      FindIs(after, key, Find(before, key).value);
    }
  }

  lemma {:induction false} AmendOnce(issues: seq<Issue>, c: Command, n: nat, key: Key)
    requires Numbered(issues)
    requires Find(issues, key) == Some(n) && Amends(c, n, key)
    ensures var after := Apply(issues, c);
            && Numbered(after)
            && |after| == |issues|
            && (forall i | 0 <= i < |issues| && i != n :: after[i] == issues[i])
            && (forall k, i | 0 <= i < |issues| :: IsAlert(after[i], k) == IsAlert(issues[i], k))
            && Find(after, key) == Some(n)
            && StatusOf(after, key) == Effect(StatusOf(issues, key), c)
  {
    var after := Apply(issues, c);
    forall k, i | 0 <= i < |issues| ensures IsAlert(after[i], k) == IsAlert(issues[i], k) {}
    FindSame(issues, after, key);
  }

  lemma {:induction false} AmendMany(issues: seq<Issue>, commands: seq<Command>, n: nat, key: Key)
    requires Numbered(issues)
    requires Find(issues, key) == Some(n)
    requires forall c | c in commands :: Amends(c, n, key)
    ensures var after := Execute(issues, commands);
            && Numbered(after)
            && |after| == |issues|
            && (forall i | 0 <= i < |issues| && i != n :: after[i] == issues[i])
            && (forall k, i | 0 <= i < |issues| :: IsAlert(after[i], k) == IsAlert(issues[i], k))
            && StatusOf(after, key) == Effects(StatusOf(issues, key), commands)
    decreases |commands|
  {
    if commands != [] {
      AmendOnce(issues, commands[0], n, key);
      AmendMany(Apply(issues, commands[0]), commands[1..], n, key);
    }
  }

  /** Commands carried out on one alert walk the abstract path, cut at the same place. */
  lemma EffectsOfPlan(issues: seq<Issue>, repository: string, e: Event, cut: nat)
    requires Relevant(e, repository)
    ensures var key := Key(e.name, e.run);
            var plan := Plan(issues, repository, e);
            var s := StatusOf(issues, key);
            Effects(s, plan[..Min(cut, |plan|)])
            == match FactOf(e, repository, key) { case None => s case Some(f) => CutNext(s, f, cut) }
  {
    var plan := Plan(issues, repository, e);
    var sent := plan[..Min(cut, |plan|)];
    var s := StatusOf(issues, Key(e.name, e.run));
    if |sent| == 1 {
      assert sent == [plan[0]];
    } else if |sent| == 2 {
      assert sent == [plan[0], plan[1]];
      ShortEffects(s, plan[0], plan[1], plan[1]);
    } else if |sent| == 3 {
      assert sent == [plan[0], plan[1], plan[2]];
      ShortEffects(s, plan[0], plan[1], plan[2]);
    }
  }

  lemma ShortEffects(s: Status, a: Command, b: Command, c: Command)
    ensures Effects(s, [a, b]) == Effect(Effect(s, a), b)
    ensures Effects(s, [a, b, c]) == Effect(Effect(Effect(s, a), b), c)
  {
    assert [a, b][1..] == [b] && [a, b, c][1..] == [b, c] && [b, c][1..] == [c];
    var s' := Effect(s, a);
    assert [b][1..] == [] && Effects(s', [b]) == Effect(s', b);
    assert [c][1..] == [] && Effects(Effect(s', b), [c]) == Effect(Effect(s', b), c);
    assert Effects(s', [b, c]) == Effects(Effect(s', b), [c]);
  }

  /** Only the alert of run `own` was written, none was duplicated, and other runs keep their status. */
  ghost predicate OnlyTouches(before: seq<Issue>, after: seq<Issue>, own: Key) {
    && Numbered(after)
    && |after| >= |before|
    && (forall i | 0 <= i < |before| && !IsAlert(before[i], own) :: after[i] == before[i])
    && (OneAlertPerRun(before) ==> OneAlertPerRun(after))
    && (forall key | key != own :: StatusOf(after, key) == StatusOf(before, key))
  }

  lemma {:induction false} CreationTouches(issues: seq<Issue>, own: Key, marker: Marker)
    requires Numbered(issues) && Find(issues, own).None? && marker.run == own.run
    ensures var after := Apply(issues, Create(AlertTitle(own.name, own.run), marker));
            OnlyTouches(issues, after, own) && StatusOf(after, own) == Open(marker.attempt)
  {
    var after := Apply(issues, Create(AlertTitle(own.name, own.run), marker));
    FindIs(after, own, |issues|);
    forall key | key != own ensures StatusOf(after, key) == StatusOf(issues, key) {
      if Find(issues, key).Some? {
        FindPrefix(issues, [after[|issues|]], key);
      } else {
        assert Find(after, key).None?;
      }
    }
  }

  lemma {:induction false} AmendmentTouches(issues: seq<Issue>, commands: seq<Command>, own: Key)
    requires Numbered(issues) && Find(issues, own).Some?
    requires forall c | c in commands :: Amends(c, Find(issues, own).value, own)
    ensures var after := Execute(issues, commands);
            OnlyTouches(issues, after, own)
            && StatusOf(after, own) == Effects(StatusOf(issues, own), commands)
  {
    var n := Find(issues, own).value;
    var after := Execute(issues, commands);
    AmendMany(issues, commands, n, own);
    forall key | key != own ensures StatusOf(after, key) == StatusOf(issues, key) {
      FindSame(issues, after, key);
    }
  }

  /** Refinement: whatever command a delivery is cut at, its run's status moves by the
      abstract transition of its fact, and nothing but that run's alert is written. */
  lemma {:induction false} DeliveryRefines(issues: seq<Issue>, repository: string, e: Event, cut: nat)
    requires Numbered(issues)
    ensures var own := Key(e.name, e.run);
            var after := DeliverCut(issues, repository, e, cut);
            && OnlyTouches(issues, after, own)
            && StatusOf(after, own)
               == match FactOf(e, repository, own) {
                 case None => StatusOf(issues, own)
                 case Some(f) => CutNext(StatusOf(issues, own), f, cut)
               }
  {
    var own := Key(e.name, e.run);
    var plan := Plan(issues, repository, e);
    var sent := plan[..Min(cut, |plan|)];
    if Relevant(e, repository) {
      EffectsOfPlan(issues, repository, e, cut);
    }
    if sent == [] {
    } else if Find(issues, own).Some? {
      forall c | c in sent ensures Amends(c, Find(issues, own).value, own) {
        assert c in plan;
      }
      AmendmentTouches(issues, sent, own);
    } else {
      assert sent == plan && plan[1..] == [];
      assert Execute(issues, sent) == Apply(issues, plan[0]);
      CreationTouches(issues, own, Marker(e.run, e.attempt));
    }
  }

  // ---------------------------------------------------------------- what one delivery writes

  /** The event is of this repository's main branch, of one of the two workflows and final. */
  predicate Counts(e: Event, repository: string) {
    && e.repository == repository && e.headRepository == repository
    && e.headBranch == "main" && e.status == "completed"
    && (e.conclusion == "success" || e.conclusion == "failure" || e.conclusion == "timed_out")
    && ((e.name == "CI" && e.trigger == "push") || e.name == "Publish to PyPI")
  }

  /** The issue the bot opened for this run of this workflow. */
  predicate IsOwnAlert(issue: Issue, e: Event) {
    && issue.title == AlertTitle(e.name, e.run)
    && issue.author == 41898282 && issue.authorIsBot
    && issue.marker.Some? && issue.marker.value.run == e.run
  }

  /** The issue as a failure, or a recovery, leaves it. */
  function AfterFailure(issue: Issue, e: Event): Issue {
    issue.(open := true, marker := Some(Marker(e.run, e.attempt)),
           comments := issue.comments + [Marker(e.run, e.attempt)])
  }

  function AfterRecovery(issue: Issue, e: Event): Issue {
    issue.(open := false, marker := Some(Marker(e.run, e.attempt)))
  }

  /** No issue but the run's own alert is written, and an event that does not count writes
      nothing, wherever the delivery is cut. */
  lemma OthersAreLeftAlone(issues: seq<Issue>, repository: string, e: Event, cut: nat, i: nat)
    requires Numbered(issues) && i < |issues|
    ensures !Counts(e, repository) ==> DeliverCut(issues, repository, e, cut) == issues
    ensures !IsOwnAlert(issues[i], e) ==>
      i < |DeliverCut(issues, repository, e, cut)| && DeliverCut(issues, repository, e, cut)[i] == issues[i]
  {
    DeliveryRefines(issues, repository, e, cut);
  }

  /** The first failure of a run opens its alert, a recovery without one does nothing. */
  lemma FirstDelivery(issues: seq<Issue>, repository: string, e: Event)
    requires Counts(e, repository) && forall i | 0 <= i < |issues| :: !IsOwnAlert(issues[i], e)
    ensures Deliver(issues, repository, e) ==
      if e.conclusion == "success" then issues
      else
        issues + [Issue(|issues|, AlertTitle(e.name, e.run), 41898282, true,
                        Some(Marker(e.run, e.attempt)), true, [])]
  {
    NoneIsFound(issues, Key(e.name, e.run));
    var plan := Plan(issues, repository, e);
    if plan != [] {
      assert plan == [Create(AlertTitle(e.name, e.run), Marker(e.run, e.attempt))];
      assert plan[1..] == [];
      assert Execute(issues, plan) == Apply(issues, plan[0]);
    }
  }

  /** A later delivery: a failure of a later attempt reopens the alert, records the attempt and
      comments on it; a recovery of no earlier attempt records it and closes an open alert,
      once the publisher job has succeeded where there is one; anything else writes nothing. */
  lemma LaterDelivery(issues: seq<Issue>, repository: string, e: Event, n: nat)
    requires Numbered(issues) && Counts(e, repository)
    requires n < |issues| && IsOwnAlert(issues[n], e) && forall i | 0 <= i < n :: !IsOwnAlert(issues[i], e)
    ensures
      var issue := issues[n];
      var previous := issue.marker.value.attempt;
      Deliver(issues, repository, e) ==
        if e.conclusion != "success" && previous < e.attempt then issues[n := AfterFailure(issue, e)]
        else if e.conclusion == "success" && issue.open && previous <= e.attempt
                && (e.name == "Publish to PyPI" ==> e.publisherSucceeded) then
          issues[n := AfterRecovery(issue, e)]
        else issues
  {
    FindIs(issues, Key(e.name, e.run), n);
    var plan := Plan(issues, repository, e);
    if |plan| == 2 {
      assert plan == [plan[0], plan[1]];
      ShortExecution(issues, plan[0], plan[1], plan[1]);
    } else if |plan| == 3 {
      assert plan == [plan[0], plan[1], plan[2]];
      ShortExecution(issues, plan[0], plan[1], plan[2]);
    }
  }

  lemma ShortExecution(issues: seq<Issue>, a: Command, b: Command, c: Command)
    ensures Execute(issues, [a, b]) == Apply(Apply(issues, a), b)
    ensures Execute(issues, [a, b, c]) == Apply(Apply(Apply(issues, a), b), c)
  {
    assert [a, b][1..] == [b] && [a, b, c][1..] == [b, c] && [b, c][1..] == [c];
    assert [b][1..] == [] && [c][1..] == [];
    assert Execute(Apply(issues, a), [b]) == Apply(Apply(issues, a), b);
    assert Execute(Apply(issues, a), [b, c]) == Execute(Apply(Apply(issues, a), b), [c]);
  }

  // ---------------------------------------------------------------- histories

  datatype Delivery = Delivery(event: Event, cut: nat)

  function DeliverAll(issues: seq<Issue>, repository: string, ds: seq<Delivery>): seq<Issue>
    decreases |ds|
  {
    if ds == [] then issues
    else DeliverAll(DeliverCut(issues, repository, ds[0].event, ds[0].cut), repository, ds[1..])
  }

  ghost predicate Uninterrupted(ds: seq<Delivery>) {
    forall d | d in ds :: d.cut >= LONGEST_PLAN
  }

  /** The facts about one run that a history delivers. */
  ghost function Facts(ds: seq<Delivery>, repository: string, key: Key): set<Fact> {
    set d | d in ds && FactOf(d.event, repository, key).Some? :: FactOf(d.event, repository, key).value
  }

  function Moves(s: Status, ds: seq<Delivery>, repository: string, key: Key): Status
    decreases |ds|
  {
    if ds == [] then s
    else
      var s' := match FactOf(ds[0].event, repository, key) {
        case None => s
        case Some(f) => CutNext(s, f, ds[0].cut)
      };
      Moves(s', ds[1..], repository, key)
  }

  lemma {:induction false} HistoryRefines(issues: seq<Issue>, repository: string, ds: seq<Delivery>, key: Key)
    requires Numbered(issues)
    ensures Numbered(DeliverAll(issues, repository, ds))
    ensures OneAlertPerRun(issues) ==> OneAlertPerRun(DeliverAll(issues, repository, ds))
    ensures StatusOf(DeliverAll(issues, repository, ds), key)
            == Moves(StatusOf(issues, key), ds, repository, key)
    decreases |ds|
  {
    if ds != [] {
      DeliveryMoves(issues, repository, ds[0].event, ds[0].cut, key);
      HistoryRefines(DeliverCut(issues, repository, ds[0].event, ds[0].cut), repository, ds[1..], key);
    }
  }

  /** Every recorded attempt is one some delivered fact is about; a closed alert records a recovery. */
  ghost predicate Justified(s: Status, facts: set<Fact>) {
    && (s.Open? ==> Failed(s.attempt) in facts || Recovered(s.attempt) in facts)
    && (s.Closed? ==> Recovered(s.attempt) in facts)
    && (!s.Absent? ==> exists f :: f in facts && f.Failed?)
  }

  ghost predicate AtLeastEveryFailure(s: Status, facts: set<Fact>) {
    forall f | f in facts && f.Failed? :: !s.Absent? && f.attempt <= s.attempt
  }

  /** The order-independent answer: absent without failures, closed when some recovery is
      at or above every failure, open at the highest failure otherwise. */
  ghost predicate Settled(s: Status, facts: set<Fact>) {
    match s
    case Absent => forall f | f in facts :: !f.Failed?
    case Open(n) =>
      && Failed(n) in facts
      && (forall f | f in facts && f.Failed? :: f.attempt <= n)
      && (forall f | f in facts && f.Recovered? :: f.attempt < n)
    case Closed(n) =>
      && Recovered(n) in facts
      && (exists f :: f in facts && f.Failed?)
      && (forall f | f in facts && f.Failed? :: f.attempt <= n)
  }

  /** Settled pins the answer down: the facts alone decide which of the three it is, and
      an open alert's attempt. */
  lemma SettledIsDecided(s: Status, facts: set<Fact>)
    requires Settled(s, facts)
    ensures s.Absent? <==> !exists f :: f in facts && f.Failed?
    ensures s.Closed? <==> (exists f :: f in facts && f.Failed?)
                           && exists r :: r in facts && r.Recovered?
                                          && forall f | f in facts && f.Failed? :: f.attempt <= r.attempt
    ensures forall s' | Settled(s', facts) ::
              s'.Absent? == s.Absent? && s'.Closed? == s.Closed? && (s.Open? ==> s' == s)
  {
    if s.Closed? {
      assert Recovered(s.attempt) in facts && Recovered(s.attempt).Recovered?;
    }
    if s.Open? {
      assert Failed(s.attempt).Failed?;
    }
  }

  lemma {:induction false} Monotone(s: Status, ds: seq<Delivery>, repository: string, key: Key, facts: set<Fact>)
    requires Justified(s, facts)
    requires Facts(ds, repository, key) <= facts
    ensures var s' := Moves(s, ds, repository, key);
            && Justified(s', facts)
            && (!s.Absent? ==> !s'.Absent? && s'.attempt >= s.attempt)
            && (Uninterrupted(ds) ==> AtLeastEveryFailure(s', Facts(ds, repository, key)))
    decreases |ds|
  {
    if ds != [] {
      var rest := ds[1..];
      assert forall d | d in rest :: d in ds;
      match FactOf(ds[0].event, repository, key)
      case None => {
        assert Facts(ds, repository, key) == Facts(rest, repository, key);
        Monotone(s, rest, repository, key, facts);
      }
      case Some(f) => {
        assert f in Facts(ds, repository, key);
        assert Facts(ds, repository, key) == {f} + Facts(rest, repository, key);
        var next := CutNext(s, f, ds[0].cut);
        if f.Failed? {
          assert f in facts && f.Failed?;
        }
        Monotone(next, rest, repository, key, facts);
        if Uninterrupted(ds) {
          assert ds[0] in ds;
        }
      }
    }
  }

  /** Once the record is at or above every failure, only recoveries act, and an
      uninterrupted pass applies all of them. */
  lemma {:induction false} SecondPass(s: Status, ds: seq<Delivery>, repository: string, key: Key)
    requires Uninterrupted(ds)
    requires !s.Absent? && AtLeastEveryFailure(s, Facts(ds, repository, key))
    ensures var s' := Moves(s, ds, repository, key);
            && !s'.Absent?
            && (s'.Open? ==> s' == s
                             && forall f | f in Facts(ds, repository, key) && f.Recovered? :: f.attempt < s.attempt)
            && s'.attempt >= s.attempt
    decreases |ds|
  {
    if ds != [] {
      var rest := ds[1..];
      assert forall d | d in rest :: d in ds;
      assert ds[0] in ds;
      match FactOf(ds[0].event, repository, key)
      case None => {
        assert Facts(ds, repository, key) == Facts(rest, repository, key);
        SecondPass(s, rest, repository, key);
      }
      case Some(f) => {
        assert f in Facts(ds, repository, key);
        assert Facts(ds, repository, key) == {f} + Facts(rest, repository, key);
        SecondPass(CutNext(s, f, ds[0].cut), rest, repository, key);
      }
    }
  }

  lemma {:induction false} MovesSplit(s: Status, left: seq<Delivery>, right: seq<Delivery>, repository: string, key: Key)
    ensures Moves(s, left + right, repository, key)
            == Moves(Moves(s, left, repository, key), right, repository, key)
    decreases |left|
  {
    if left == [] {
      assert left + right == right;
    } else {
      assert (left + right)[1..] == left[1..] + right;
      var s' := match FactOf(left[0].event, repository, key) {
        case None => s
        case Some(f) => CutNext(s, f, left[0].cut)
      };
      MovesSplit(s', left[1..], right, repository, key);
    }
  }

  /** Convergence. Deliver any events about any runs in any order, cutting each process off
      wherever it may be; then deliver all of this run's facts once more and once again,
      uninterrupted and each time in any order. The alert ends in the one answer its facts
      decide. With an empty `crashed` this is the plain redelivery property. */
  lemma {:induction false} Converges(
      issues: seq<Issue>, repository: string, key: Key,
      crashed: seq<Delivery>, first: seq<Delivery>, second: seq<Delivery>)
    requires Numbered(issues) && StatusOf(issues, key) == Absent
    requires Uninterrupted(first) && Uninterrupted(second)
    requires Facts(crashed, repository, key) <= Facts(first, repository, key) == Facts(second, repository, key)
    ensures Settled(StatusOf(DeliverAll(issues, repository, crashed + first + second), key),
                    Facts(first, repository, key))
  {
    var facts := Facts(first, repository, key);
    HistoryRefines(issues, repository, crashed + first + second, key);
    MovesSplit(Absent, crashed + first, second, repository, key);
    MovesSplit(Absent, crashed, first, repository, key);
    var s0 := Moves(Absent, crashed, repository, key);
    Monotone(Absent, crashed, repository, key, facts);
    var s1 := Moves(s0, first, repository, key);
    Monotone(s0, first, repository, key, facts);
    var s2 := Moves(s1, second, repository, key);
    Monotone(s1, second, repository, key, facts);
    if !s1.Absent? {
      SecondPass(s1, second, repository, key);
    }
  }

  /** After any uninterrupted history from no alert: an open alert records exactly the
      highest failed attempt delivered, a closed one a delivered recovery no lower than
      every failure delivered, and no failure means no alert. */
  lemma {:induction false} RecordsHighestFailure(issues: seq<Issue>, repository: string, ds: seq<Delivery>, key: Key)
    requires Numbered(issues) && StatusOf(issues, key) == Absent
    requires Uninterrupted(ds)
    ensures var s := StatusOf(DeliverAll(issues, repository, ds), key);
            var facts := Facts(ds, repository, key);
            && (s.Absent? <==> forall f | f in facts :: !f.Failed?)
            && (s.Open? ==> Failed(s.attempt) in facts)
            && (s.Closed? ==> Recovered(s.attempt) in facts)
            && AtLeastEveryFailure(s, facts)
  {
    HistoryRefines(issues, repository, ds, key);
    Monotone(Absent, ds, repository, key, Facts(ds, repository, key));
    OpenByFailure(Absent, ds, repository, key, Facts(ds, repository, key));
  }

  lemma {:induction false} OpenByFailure(s: Status, ds: seq<Delivery>, repository: string, key: Key, facts: set<Fact>)
    requires Uninterrupted(ds)
    requires Facts(ds, repository, key) <= facts
    requires s.Open? ==> Failed(s.attempt) in facts
    ensures var s' := Moves(s, ds, repository, key); s'.Open? ==> Failed(s'.attempt) in facts
    decreases |ds|
  {
    if ds != [] {
      var rest := ds[1..];
      assert ds[0] in ds && forall d | d in rest :: d in ds;
      match FactOf(ds[0].event, repository, key)
      case None => OpenByFailure(s, rest, repository, key, facts);
      case Some(f) => {
        assert f in Facts(ds, repository, key);
        OpenByFailure(CutNext(s, f, ds[0].cut), rest, repository, key, facts);
      }
    }
  }

  /** Along every history, interrupted or not, the recorded attempt never decreases, an
      alert never disappears, and no run ever has two alerts. */
  lemma {:induction false} NeverForgets(issues: seq<Issue>, repository: string, ds: seq<Delivery>, key: Key)
    requires Numbered(issues) && OneAlertPerRun(issues)
    ensures OneAlertPerRun(DeliverAll(issues, repository, ds))
    ensures var s, s' := StatusOf(issues, key), StatusOf(DeliverAll(issues, repository, ds), key);
            !s.Absent? ==> !s'.Absent? && s'.attempt >= s.attempt
  {
    HistoryRefines(issues, repository, ds, key);
    var s := StatusOf(issues, key);
    if !s.Absent? {
      var facts := Facts(ds, repository, key) + {Failed(s.attempt), Recovered(s.attempt)};
      assert Failed(s.attempt) in facts && Failed(s.attempt).Failed?;
      Monotone(s, ds, repository, key, facts);
    }
  }

  /** Cut a delivery off after any command and run it again on the same event: every run,
      this one included, is where an uninterrupted delivery would have put it. */
  lemma RerunCompletes(issues: seq<Issue>, repository: string, e: Event, cut: nat, key: Key)
    requires Numbered(issues)
    ensures StatusOf(Deliver(DeliverCut(issues, repository, e, cut), repository, e), key)
            == StatusOf(Deliver(issues, repository, e), key)
  {
    var partial := DeliverCut(issues, repository, e, cut);
    DeliveryMoves(issues, repository, e, cut, key);
    DeliveryMoves(issues, repository, e, LONGEST_PLAN, key);
    DeliveryMoves(partial, repository, e, LONGEST_PLAN, key);
    WholeDelivery(issues, repository, e);
    WholeDelivery(partial, repository, e);
    if FactOf(e, repository, key).Some? {
      RerunStatus(StatusOf(issues, key), FactOf(e, repository, key).value, cut);
    }
  }

  lemma DeliveryMoves(issues: seq<Issue>, repository: string, e: Event, cut: nat, key: Key)
    requires Numbered(issues)
    ensures Numbered(DeliverCut(issues, repository, e, cut))
    ensures StatusOf(DeliverCut(issues, repository, e, cut), key)
            == match FactOf(e, repository, key) {
              case None => StatusOf(issues, key)
              case Some(f) => CutNext(StatusOf(issues, key), f, cut)
            }
    ensures OneAlertPerRun(issues) ==> OneAlertPerRun(DeliverCut(issues, repository, e, cut))
  {
    DeliveryRefines(issues, repository, e, cut);
  }

  lemma RerunStatus(s: Status, f: Fact, cut: nat)
    ensures CutNext(CutNext(s, f, cut), f, LONGEST_PLAN) == CutNext(s, f, LONGEST_PLAN)
  {}

  lemma WholeDelivery(issues: seq<Issue>, repository: string, e: Event)
    ensures DeliverCut(issues, repository, e, LONGEST_PLAN) == Deliver(issues, repository, e)
  {
    var plan := Plan(issues, repository, e);
    assert plan[..Min(LONGEST_PLAN, |plan|)] == plan;
  }
}
