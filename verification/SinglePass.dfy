/** When one uninterrupted delivery of a run's events is enough to settle its alert. Two always
    are; one is not if every sufficient recovery came before the highest failure and was
    dropped. */
module SinglePass {
  import opened Wrappers
  import opened ReleaseAlert
  import opened AlertConvergence

  // ---------------------------------------------------------------- the facts in the order delivered

  function FactList(ds: seq<Delivery>, repository: string, key: Key): seq<Fact> {
    if ds == [] then []
    else
      (match FactOf(ds[0].event, repository, key) case None => [] case Some(f) => [f])
      + FactList(ds[1..], repository, key)
  }

  function Fold(s: Status, fs: seq<Fact>): Status
    decreases |fs|
  {
    if fs == [] then s else Fold(Next(s, fs[0]), fs[1..])
  }

  lemma {:induction false} MovesIsFold(s: Status, ds: seq<Delivery>, repository: string, key: Key)
    requires Uninterrupted(ds)
    ensures Moves(s, ds, repository, key) == Fold(s, FactList(ds, repository, key))
    decreases |ds|
  {
    if ds != [] {
      assert ds[0] in ds && forall d | d in ds[1..] :: d in ds;
      match FactOf(ds[0].event, repository, key)
      case None => {
        assert FactList(ds, repository, key) == FactList(ds[1..], repository, key);
        MovesIsFold(s, ds[1..], repository, key);
      }
      case Some(f) => {
        var fs := FactList(ds, repository, key);
        assert fs[0] == f && fs[1..] == FactList(ds[1..], repository, key);
        WholePath(s, f, ds[0].cut);
        MovesIsFold(Next(s, f), ds[1..], repository, key);
      }
    }
  }

  lemma {:induction false} FactListIsFacts(ds: seq<Delivery>, repository: string, key: Key)
    ensures Facts(ds, repository, key) == set f | f in FactList(ds, repository, key)
  {
    if ds != [] {
      FactListIsFacts(ds[1..], repository, key);
      assert Facts(ds, repository, key)
             == (match FactOf(ds[0].event, repository, key) case None => {} case Some(f) => {f})
                + Facts(ds[1..], repository, key);
    }
  }

  lemma {:induction false} FoldSplit(s: Status, left: seq<Fact>, right: seq<Fact>)
    ensures Fold(s, left + right) == Fold(Fold(s, left), right)
    decreases |left|
  {
    if left == [] {
      assert left + right == right;
    } else {
      assert (left + right)[0] == left[0] && (left + right)[1..] == left[1..] + right;
      FoldSplit(Next(s, left[0]), left[1..], right);
    }
  }

  // ---------------------------------------------------------------- around the highest failure

  ghost predicate NoFailure(fs: seq<Fact>) {
    forall f | f in fs :: !f.Failed?
  }

  predicate Recovers(f: Fact, attempt: nat) {
    f.Recovered? && f.attempt >= attempt
  }

  ghost predicate SomeRecovers(fs: seq<Fact>, attempt: nat) {
    exists f :: f in fs && Recovers(f, attempt)
  }

  /** The first delivery of the highest failed attempt. */
  ghost predicate IsFirstHighest(fs: seq<Fact>, i: int) {
    && 0 <= i < |fs| && fs[i].Failed?
    && (forall f | f in fs && f.Failed? :: f.attempt <= fs[i].attempt)
    && (forall k | 0 <= k < i :: fs[k] != fs[i])
  }

  lemma {:induction false} HighestExists(fs: seq<Fact>) returns (i: nat)
    requires !NoFailure(fs)
    ensures IsFirstHighest(fs, i)
  {
    var rest := fs[1..];
    assert fs == [fs[0]] + rest;
    if NoFailure(rest) {
      i := 0;
    } else {
      var j := HighestExists(rest);
      assert rest[j] == fs[j + 1] && forall k | 0 <= k < |rest| :: rest[k] == fs[k + 1];
      if fs[0].Failed? && fs[0].attempt >= rest[j].attempt {
        i := 0;
      } else {
        i := j + 1;
      }
    }
  }

  lemma {:induction false} RecordsAFact(fs: seq<Fact>)
    ensures var s := Fold(Absent, fs);
            && (s.Open? ==> Failed(s.attempt) in fs)
            && (s.Closed? ==> Recovered(s.attempt) in fs)
    decreases |fs|
  {
    if fs != [] {
      var front, last := fs[..|fs| - 1], fs[|fs| - 1];
      assert fs == front + [last];
      RecordsAFact(front);
      FoldSplit(Absent, front, [last]);
      assert Fold(Fold(Absent, front), [last]) == Next(Fold(Absent, front), last) by {
        assert [last][1..] == [];
      }
    }
  }

  lemma {:induction false} StaysClosed(s: Status, fs: seq<Fact>)
    requires s.Closed? && forall f | f in fs && f.Failed? :: f.attempt <= s.attempt
    ensures Fold(s, fs) == s
    decreases |fs|
  {
    if fs != [] {
      assert fs[0] in fs && forall f | f in fs[1..] :: f in fs;
      StaysClosed(s, fs[1..]);
    }
  }

  lemma {:induction false} ClosedByLaterRecovery(h: nat, fs: seq<Fact>)
    requires forall f | f in fs && f.Failed? :: f.attempt <= h
    ensures if SomeRecovers(fs, h) then Fold(Open(h), fs).Closed? && Fold(Open(h), fs).attempt >= h
                                        && Recovered(Fold(Open(h), fs).attempt) in fs
            else Fold(Open(h), fs) == Open(h)
    decreases |fs|
  {
    if fs != [] {
      var rest := fs[1..];
      assert fs == [fs[0]] + rest;
      if Recovers(fs[0], h) {
        assert SomeRecovers(fs, h);
        StaysClosed(Closed(fs[0].attempt), rest);
      } else {
        assert SomeRecovers(fs, h) <==> SomeRecovers(rest, h);
        ClosedByLaterRecovery(h, rest);
      }
    }
  }

  lemma {:induction false} StaysAbsent(fs: seq<Fact>)
    requires NoFailure(fs)
    ensures Fold(Absent, fs) == Absent
    decreases |fs|
  {
    if fs != [] {
      assert fs[0] in fs && forall f | f in fs[1..] :: f in fs;
      StaysAbsent(fs[1..]);
    }
  }

  /** What the facts up to and including the highest failure, and those after it, make of the
      alert. */
  lemma PassAround(fs: seq<Fact>, i: nat)
    requires IsFirstHighest(fs, i)
    ensures var s, h, after := Fold(Absent, fs[..i]), fs[i].attempt, fs[i + 1..];
            Fold(Absent, fs) == if s.Closed? && s.attempt >= h then s else Fold(Open(h), after)
  {
    var before, h, after := fs[..i], fs[i].attempt, fs[i + 1..];
    var s := Fold(Absent, before);
    assert fs == before + ([fs[i]] + after) && ([fs[i]] + after)[1..] == after;
    FoldSplit(Absent, before, [fs[i]] + after);
    RecordsAFact(before);
    assert forall f | f in after :: f in fs;
    if s.Open? {
      assert Failed(s.attempt) in fs && s.attempt != h;
    }
    if s.Closed? && s.attempt >= h {
      StaysClosed(s, after);
    }
  }

  // ---------------------------------------------------------------- the condition

  /** Nothing failed; or nothing recovered the highest failure h; or something did after h was
      first delivered; or the alert was by then already closed at h or higher. */
  ghost predicate Caught(fs: seq<Fact>) {
    || NoFailure(fs)
    || exists i :: IsFirstHighest(fs, i) && CaughtAt(fs, i)
  }

  ghost predicate CaughtAt(fs: seq<Fact>, i: int)
    requires 0 <= i < |fs|
  {
    var s, h := Fold(Absent, fs[..i]), fs[i].attempt;
    || !SomeRecovers(fs, h)
    || SomeRecovers(fs[i + 1..], h)
    || (s.Closed? && s.attempt >= h)
  }

  lemma FoldSettlesAt(fs: seq<Fact>, i: nat)
    requires IsFirstHighest(fs, i)
    ensures Settled(Fold(Absent, fs), set f | f in fs) <==> CaughtAt(fs, i)
  {
    var s, h, after := Fold(Absent, fs[..i]), fs[i].attempt, fs[i + 1..];
    PassAround(fs, i);
    RecordsAFact(fs[..i]);
    assert fs[i] in fs && forall f | f in after :: f in fs;
    if !(s.Closed? && s.attempt >= h) {
      ClosedByLaterRecovery(h, after);
      if SomeRecovers(fs, h) && !SomeRecovers(after, h) {
        var f :| f in fs && Recovers(f, h);
        assert f in (set g | g in fs);
      }
    }
  }

  /** One uninterrupted pass, from no alert, settles exactly the orders that are caught. */
  lemma OnePassSettlesIff(issues: seq<Issue>, repository: string, ds: seq<Delivery>, key: Key)
    requires Numbered(issues) && StatusOf(issues, key) == Absent && Uninterrupted(ds)
    ensures Settled(StatusOf(DeliverAll(issues, repository, ds), key), Facts(ds, repository, key))
       <==> Caught(FactList(ds, repository, key))
  {
    var fs := FactList(ds, repository, key);
    HistoryRefines(issues, repository, ds, key);
    MovesIsFold(Absent, ds, repository, key);
    FactListIsFacts(ds, repository, key);
    if NoFailure(fs) {
      StaysAbsent(fs);
    } else {
      var i := HighestExists(fs);
      FoldSettlesAt(fs, i);
      forall j | IsFirstHighest(fs, j) ensures CaughtAt(fs, j) <==> CaughtAt(fs, i) {
        FoldSettlesAt(fs, j);
      }
    }
  }

  // ---------------------------------------------------------------- an order that is not caught

  function Delivered(attempt: nat, conclusion: string): Delivery {
    Delivery(Event("r", "r", "main", "completed", "CI", "push", conclusion, 7, attempt, true), LONGEST_PLAN)
  }

  function Missing(): seq<Delivery> {
    [Delivered(1, "failure"), Delivered(1, "success"), Delivered(3, "success"), Delivered(2, "failure")]
  }

  lemma MissingFacts()
    ensures FactList(Missing(), "r", Key("CI", 7)) == [Failed(1), Recovered(1), Recovered(3), Failed(2)]
  {
    var ds := Missing();
    assert ds[1..][1..] == ds[2..] && ds[2..][1..] == ds[3..] && ds[3..][1..] == [];
    assert FactList(ds[3..], "r", Key("CI", 7)) == [Failed(2)];
    assert FactList(ds[2..], "r", Key("CI", 7)) == [Recovered(3), Failed(2)];
    assert FactList(ds[1..], "r", Key("CI", 7)) == [Recovered(1), Recovered(3), Failed(2)];
  }

  lemma MissingFold()
    ensures Fold(Absent, [Failed(1), Recovered(1), Recovered(3), Failed(2)]) == Open(2)
  {
    FoldOne(Closed(1), Failed(2), []);
    FoldOne(Closed(1), Recovered(3), [Failed(2)]);
    FoldOne(Open(1), Recovered(1), [Recovered(3), Failed(2)]);
    FoldOne(Absent, Failed(1), [Recovered(1), Recovered(3), Failed(2)]);
    assert [Failed(1)] + [Recovered(1), Recovered(3), Failed(2)] == [Failed(1), Recovered(1), Recovered(3), Failed(2)];
    assert [Recovered(1)] + [Recovered(3), Failed(2)] == [Recovered(1), Recovered(3), Failed(2)];
    assert [Recovered(3)] + [Failed(2)] == [Recovered(3), Failed(2)] && [Failed(2)] + [] == [Failed(2)];
  }

  lemma FoldOne(s: Status, f: Fact, rest: seq<Fact>)
    ensures Fold(s, [f] + rest) == Fold(Next(s, f), rest)
  {
    assert ([f] + rest)[1..] == rest;
  }

  /** The recovery of attempt 3 arrives while the alert is closed and is dropped; the late
      failure of attempt 2 reopens it for good. */
  lemma OnePassMayMiss()
    ensures Uninterrupted(Missing())
    ensures StatusOf(DeliverAll([], "r", Missing()), Key("CI", 7)) == Open(2)
    ensures !Settled(StatusOf(DeliverAll([], "r", Missing()), Key("CI", 7)), Facts(Missing(), "r", Key("CI", 7)))
  {
    var key, ds := Key("CI", 7), Missing();
    var fs := [Failed(1), Recovered(1), Recovered(3), Failed(2)];
    MissingFacts();
    HistoryRefines([], "r", ds, key);
    MovesIsFold(Absent, ds, "r", key);
    FactListIsFacts(ds, "r", key);
    MissingFold();
    assert Recovered(3) in fs;
  }
}
