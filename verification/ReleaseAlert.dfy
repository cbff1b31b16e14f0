/** The owner-assigned GitHub alert of one workflow run (scripts/report_release_failure.py).

    A delivery of a workflow event plans a short list of `gh issue` commands from the
    repository's issues and carries them out one by one; the process may be cut off
    between any two of them. Per run the issues amount to a Status, and the module
    proves what every sequence of deliveries does to it. */
module ReleaseAlert {
  import opened Wrappers

  const ACTIONS_BOT_ID: nat := 41898282
  const PUBLISH := "Publish to PyPI"
  const PAGE: nat := 100
  const LONGEST_PLAN: nat := 3

  /** `publisherSucceeded` is the answer of the jobs listing for this run and attempt. */
  datatype Event = Event(
    repository: string, headRepository: string, headBranch: string, status: string,
    name: string, trigger: string, conclusion: string,
    run: nat, attempt: nat, publisherSucceeded: bool)

  datatype Title = AlertTitle(name: string, run: nat) | OtherTitle(text: string)
  datatype Marker = Marker(run: nat, attempt: nat)

  /** `marker` is the first alert marker found in the issue body. */
  datatype Issue = Issue(
    number: nat, title: Title, author: nat, authorIsBot: bool,
    marker: Option<Marker>, open: bool, comments: seq<Marker>)

  datatype Command =
    | Create(title: Title, marker: Marker)
    | Reopen(number: nat)
    | Edit(number: nat, marker: Marker)
    | Close(number: nat)
    | Comment(number: nat, marker: Marker)

  /** The workflow name and run number an alert belongs to. */
  datatype Key = Key(name: string, run: nat)

  predicate Relevant(e: Event, repository: string) {
    && e.repository == repository
    && e.headRepository == repository
    && e.headBranch == "main"
    && e.status == "completed"
    && e.name in {"CI", PUBLISH}
    && (e.name == "CI" ==> e.trigger == "push")
    && e.conclusion in {"failure", "timed_out", "success"}
  }

  predicate IsAlert(issue: Issue, key: Key) {
    && issue.title == AlertTitle(key.name, key.run)
    && issue.author == ACTIONS_BOT_ID
    && issue.authorIsBot
    && issue.marker.Some?
    && issue.marker.value.run == key.run
  }

  function Find(issues: seq<Issue>, key: Key): (found: Option<nat>)
    ensures found.None? ==> forall i | 0 <= i < |issues| :: !IsAlert(issues[i], key)
    ensures found.Some? ==> found.value < |issues| && IsAlert(issues[found.value], key)
    ensures found.Some? ==> forall i | 0 <= i < found.value :: !IsAlert(issues[i], key)
  {
    if issues == [] then None
    else if IsAlert(issues[0], key) then Some(0)
    else
      match Find(issues[1..], key)
      case None => assert forall i | 1 <= i < |issues| :: issues[i] == issues[1..][i - 1]; None
      case Some(n) => assert forall i | 1 <= i < n + 1 :: issues[i] == issues[1..][i - 1]; Some(n + 1)
  }

  /** The `gh` commands one delivery intends, in order. */
  function Plan(issues: seq<Issue>, repository: string, e: Event): (plan: seq<Command>)
    ensures |plan| <= LONGEST_PLAN
  {
    var marker := Marker(e.run, e.attempt);
    var success := e.conclusion == "success";
    if !Relevant(e, repository) then []
    else
      match Find(issues, Key(e.name, e.run))
      case None => if success then [] else [Create(AlertTitle(e.name, e.run), marker)]
      case Some(n) =>
        var existing := issues[n];
        var previous := existing.marker.value.attempt;
        if previous > e.attempt || (!existing.open && previous >= e.attempt) then []
        else if success then
          if !existing.open || (e.name == PUBLISH && !e.publisherSucceeded) then []
          else [Edit(existing.number, marker), Close(existing.number)]
        else if previous == e.attempt then []
        else
          (if existing.open then [] else [Reopen(existing.number)])
          + [Edit(existing.number, marker), Comment(existing.number, marker)]
  }

  function Apply(issues: seq<Issue>, c: Command): seq<Issue> {
    match c
    case Create(title, marker) =>
      issues + [Issue(|issues|, title, ACTIONS_BOT_ID, true, Some(marker), true, [])]
    case Reopen(n) => if n < |issues| then issues[n := issues[n].(open := true)] else issues
    case Edit(n, marker) =>
      if n < |issues| then issues[n := issues[n].(marker := Some(marker))] else issues
    case Close(n) => if n < |issues| then issues[n := issues[n].(open := false)] else issues
    case Comment(n, marker) =>
      if n < |issues| then issues[n := issues[n].(comments := issues[n].comments + [marker])] else issues
  }

  function Execute(issues: seq<Issue>, commands: seq<Command>): seq<Issue>
    decreases |commands|
  {
    if commands == [] then issues else Execute(Apply(issues, commands[0]), commands[1..])
  }

  /** A delivery whose process is cut off after `cut` issue commands. */
  function DeliverCut(issues: seq<Issue>, repository: string, e: Event, cut: nat): seq<Issue> {
    var plan := Plan(issues, repository, e);
    Execute(issues, plan[..Min(cut, |plan|)])
  }

  function Deliver(issues: seq<Issue>, repository: string, e: Event): seq<Issue> {
    Execute(issues, Plan(issues, repository, e))
  }

  // ---------------------------------------------------------------- the script itself

  function Flatten(pages: seq<seq<Issue>>): seq<Issue> {
    if pages == [] then [] else pages[0] + Flatten(pages[1..])
  }

  function Pages(issues: seq<Issue>): (pages: seq<seq<Issue>>)
    ensures Flatten(pages) == issues
  {
    if |issues| <= PAGE then [issues]
    else
      assert issues == issues[..PAGE] + issues[PAGE..];
      [issues[..PAGE]] + Pages(issues[PAGE..])
  }

  lemma {:induction false} FlattenSplit(left: seq<seq<Issue>>, right: seq<seq<Issue>>)
    ensures Flatten(left + right) == Flatten(left) + Flatten(right)
  {
    if left == [] {
      assert left + right == right;
    } else {
      var all, rest := left + right, left[1..];
      assert all[0] == left[0] && all[1..] == rest + right;
      FlattenSplit(rest, right);
      assert Flatten(all) == left[0] + (Flatten(rest) + Flatten(right));
    }
  }

  /** A page in its place in the flat listing. */
  lemma PageInPlace(pages: seq<seq<Issue>>, p: nat)
    requires p < |pages|
    ensures Flatten(pages[..p + 1]) == Flatten(pages[..p]) + pages[p]
    ensures Flatten(pages) == (Flatten(pages[..p]) + pages[p]) + Flatten(pages[p + 1..])
  {
    PageAppended(pages[..p], pages[p]);
    assert pages[..p] + [pages[p]] == pages[..p + 1];
    FlattenSplit(pages[..p + 1], pages[p + 1..]);
    assert pages[..p + 1] + pages[p + 1..] == pages;
  }

  lemma PageAppended(pages: seq<seq<Issue>>, page: seq<Issue>)
    ensures Flatten(pages + [page]) == Flatten(pages) + page
  {
    FlattenSplit(pages, [page]);
    FlattenOne(page);
  }

  lemma FlattenOne(page: seq<Issue>)
    ensures Flatten([page]) == page
  {
    assert [page][1..] == [] && page + [] == page;
  }

  /** The position of an issue found `n` places after `from` ones. */
  function Further(found: Option<nat>, n: nat): Option<nat> {
    match found case None => None case Some(k) => Some(n + k)
  }

  lemma FirstIsFound(issues: seq<Issue>, key: Key, n: nat)
    requires n < |issues| && IsAlert(issues[n], key)
    requires forall i | 0 <= i < n :: !IsAlert(issues[i], key)
    ensures Find(issues, key) == Some(n)
  {
    var found := Find(issues, key);
    assert found.Some? && !(n < found.value) && !(found.value < n);
  }

  lemma FindSplit(left: seq<Issue>, right: seq<Issue>, key: Key)
    requires Find(left, key).None?
    ensures Find(left + right, key) == Further(Find(right, key), |left|)
  {
    var all, found := left + right, Find(right, key);
    assert forall i | 0 <= i < |left| :: !IsAlert(all[i], key);
    if found.Some? {
      assert forall i | |left| <= i < |left| + found.value :: all[i] == right[i - |left|];
      FirstIsFound(all, key, |left| + found.value);
    } else {
      assert forall i | |left| <= i < |all| :: all[i] == right[i - |left|];
      NoneIsFound(all, key);
    }
  }

  lemma NoneIsFound(issues: seq<Issue>, key: Key)
    requires forall i | 0 <= i < |issues| :: !IsAlert(issues[i], key)
    ensures Find(issues, key) == None
  {}

  function FoundIn(issues: seq<Issue>, key: Key): Option<Issue> {
    match Find(issues, key) case None => None case Some(n) => Some(issues[n])
  }

  /** An alert on a page after pages without one is the first of the listing. */
  lemma FoundLater(before: seq<Issue>, page: seq<Issue>, after: seq<Issue>, key: Key)
    requires Find(before, key).None?
    ensures Find(page, key).None? ==> Find(before + page, key).None?
    ensures Find(page, key).Some? ==> FoundIn((before + page) + after, key) == FoundIn(page, key)
  {
    FindSplit(before, page, key);
    if Find(page, key).Some? {
      FindPrefix(before + page, after, key);
    }
  }

  /** The issues of one repository, numbered by position, and how many more mutating
      commands the current process lives to issue. */
  class GitHub {
    var issues: seq<Issue>
    var budget: nat

    ghost predicate Valid() reads this {
      forall i | 0 <= i < |issues| :: issues[i].number == i
    }

    /** A process that started with `room` commands to live has tried the first `k` of `plan`. */
    ghost predicate Progress(start: seq<Issue>, plan: seq<Command>, room: nat, k: nat) reads this {
      && k <= |plan|
      && issues == Execute(start, plan[..Min(room, k)])
      && budget == if room > k then room - k else 0
    }

    method Send(c: Command, ghost start: seq<Issue>, ghost plan: seq<Command>, ghost room: nat, ghost k: nat)
      requires Progress(start, plan, room, k)
      requires k < |plan| && plan[k] == c
      modifies this
      ensures Progress(start, plan, room, k + 1)
    {
      if budget > 0 {
        assert plan[..k + 1] == plan[..k] + [c];
        ExecuteAppend(start, plan[..k], c);
        issues := Apply(issues, c);
        budget := budget - 1;
      }
    }

    /** The two nested scans over the paginated listing. */
    method FindExisting(pages: seq<seq<Issue>>, key: Key) returns (existing: Option<Issue>)
      requires Flatten(pages) == issues
      ensures existing == FoundIn(issues, key)
    {
      existing := None;
      var p := 0;
      while p < |pages| && existing.None?
        invariant 0 <= p <= |pages|
        invariant existing.None? ==> Find(Flatten(pages[..p]), key).None?
        invariant existing.Some? ==> existing == FoundIn(issues, key)
      {
        PageInPlace(pages, p);
        existing := FindOnPage(pages[p], key);
        FoundLater(Flatten(pages[..p]), pages[p], Flatten(pages[p + 1..]), key);
        p := p + 1;
      }
      assert pages[..|pages|] == pages;
    }

    method FindOnPage(page: seq<Issue>, key: Key) returns (existing: Option<Issue>)
      ensures existing == FoundIn(page, key)
    {
      existing := None;
      var i := 0;
      while i < |page| && existing.None?
        invariant 0 <= i <= |page|
        invariant existing.None? ==> Find(page[..i], key).None?
        invariant existing.Some? ==> existing == FoundIn(page, key)
      {
        if IsAlert(page[i], key) {
          existing := Some(page[i]);
          FindSplit(page[..i], page[i..], key);
          assert page == page[..i] + page[i..];
        } else {
          FindSplit(page[..i], [page[i]], key);
          assert page[..i + 1] == page[..i] + [page[i]];
        }
        i := i + 1;
      }
      assert page[..|page|] == page;
    }

    /** The whole script on one event. The commands that get through are exactly the first
        `budget` of the plan, so a cut process leaves what DeliverCut says. */
    method ReportFailure(repository: string, e: Event)
      requires Valid()
      modifies this
      ensures issues == DeliverCut(old(issues), repository, e, old(budget))
      ensures old(budget) >= 3 ==> issues == Deliver(old(issues), repository, e)
    {
      ghost var plan := Plan(issues, repository, e);
      ghost var cut := Min(budget, |plan|);
      assert budget >= LONGEST_PLAN ==> plan[..cut] == plan;
      if !Relevant(e, repository) {
        return;
      }
      var key := Key(e.name, e.run);
      var existing := FindExisting(Pages(issues), key);
      if existing.Some? {
        var previous := existing.value.marker.value.attempt;
        if previous > e.attempt || (!existing.value.open && previous >= e.attempt) {
          return;
        }
      }
      var success := e.conclusion == "success";
      if success {
        if existing.None? || !existing.value.open {
          return;
        }
        if e.name == PUBLISH && !e.publisherSucceeded {
          return;
        }
      } else if existing.Some? && existing.value.marker.value.attempt == e.attempt {
        return;
      }
      var marker := Marker(e.run, e.attempt);
      ghost var start, room, k := issues, budget, 0;
      assert Progress(start, plan, room, k);
      if existing.Some? {
        var number := existing.value.number;
        if !existing.value.open {
          Send(Reopen(number), start, plan, room, k);
          k := k + 1;
        }
        Send(Edit(number, marker), start, plan, room, k);
        if success {
          Send(Close(number), start, plan, room, k + 1);
        } else {
          Send(Comment(number, marker), start, plan, room, k + 1);
        }
      } else {
        Send(Create(AlertTitle(e.name, e.run), marker), start, plan, room, k);
      }
    }
  }

  lemma FindPrefix(left: seq<Issue>, right: seq<Issue>, key: Key)
    requires Find(left, key).Some?
    ensures Find(left + right, key) == Find(left, key)
  {
    var n := Find(left, key).value;
    assert (left + right)[n] == left[n];
    assert forall i | 0 <= i < n :: (left + right)[i] == left[i];
  }

  lemma {:induction false} ExecuteAppend(issues: seq<Issue>, sent: seq<Command>, c: Command)
    ensures Execute(issues, sent + [c]) == Apply(Execute(issues, sent), c)
    decreases |sent|
  {
    if sent != [] {
      ExecuteAppend(Apply(issues, sent[0]), sent[1..], c);
      assert (sent + [c])[1..] == sent[1..] + [c];
    } else {
      assert sent + [c] == [c];
    }
  }
}
