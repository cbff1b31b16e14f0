/** Model activation of strathmark/db.py without the server-side swap: two separate updates of
    the version table, either of which may be the last to happen. */
module ModelActivation {
  import opened Wrappers

  datatype Row = Row(kind: string, active: bool, retired: Option<int>)

  type Table = map<string, Row>

  /** What the partial unique index demands: one active version per model type at most. */
  ghost predicate OneActive(t: Table) {
    forall a, b | a in t && b in t && t[a].active && t[b].active && t[a].kind == t[b].kind :: a == b
  }

  ghost predicate HasActive(t: Table, kind: string) {
    exists id :: id in t && t[id].kind == kind && t[id].active
  }

  /** Retires the active versions of the target's type, the target excepted. */
  function Retire(t: Table, target: string, now: int): Table
    requires target in t
  {
    map id | id in t ::
      if t[id].active && t[id].kind == t[target].kind && id != target then Row(t[id].kind, false, Some(now)) else t[id]
  }

  function Activate(t: Table, target: string): Table
    requires target in t
  {
    t[target := Row(t[target].kind, true, None)]
  }

  /** The table after the first done of the two updates. */
  function Swap(t: Table, target: string, now: int, done: nat): Table
    requires target in t
  {
    if done == 0 then t
    else if done == 1 then Retire(t, target, now)
    else Activate(Retire(t, target, now), target)
  }

  class ModelVersions {
    var rows: Table

    constructor ()
      ensures rows == map[]
    {
      rows := map[];
    }

    /** A new version starts inactive. */
    method Register(id: string, kind: string) returns (ok: bool)
      requires OneActive(rows)
      modifies this
      ensures OneActive(rows)
      ensures ok <==> id !in old(rows)
      ensures rows == if ok then old(rows)[id := Row(kind, false, None)] else old(rows)
    {
      if id in rows {
        return false;
      }
      rows := rows[id := Row(kind, false, None)];
      return true;
    }

    /** Runs the fallback; only the first room updates happen. None is the LookupError. */
    method SetActiveModel(target: string, now: int, room: nat) returns (found: bool)
      requires OneActive(rows)
      modifies this
      ensures OneActive(rows)
      ensures found <==> target in old(rows)
      ensures rows == if found then Swap(old(rows), target, now, room) else old(rows)
    {
      if target !in rows {
        return false;
      }
      EveryCutIsValid(rows, target, now, room);
      if room >= 1 {
        rows := Retire(rows, target, now);
      }
      if room >= 2 {
        rows := Activate(rows, target);
      }
      return true;
    }
  }

  // ---------------------------------------------------------------- properties

  /** No cut of the swap ever violates the index. */
  lemma EveryCutIsValid(t: Table, target: string, now: int, done: nat)
    requires target in t && OneActive(t)
    ensures OneActive(Swap(t, target, now, done)) && Swap(t, target, now, done).Keys == t.Keys
  {}

  /** The other order would: activating first breaks the index exactly when some other version
      of the type is active. */
  lemma ActivatingFirstBreaksIff(t: Table, target: string)
    requires target in t && OneActive(t)
    ensures OneActive(Activate(t, target)) <==>
      forall id | id in t && t[id].active && t[id].kind == t[target].kind :: id == target
  {
    var after := Activate(t, target);
    forall id | id in t && t[id].active && t[id].kind == t[target].kind && OneActive(after) ensures id == target {
      assert after[target].active && after[id].active;
    }
  }

  /** A whole swap leaves exactly the target active in its type, stamps those it retires, and
      touches no other type and no version retired before. */
  lemma SwapActivatesTarget(t: Table, target: string, now: int, id: string)
    requires target in t && id in t
    ensures Swap(t, target, now, 2)[id].active <==>
      id == target || (t[id].active && t[id].kind != t[target].kind)
    ensures t[id].kind != t[target].kind || (!t[id].active && id != target) ==> Swap(t, target, now, 2)[id] == t[id]
    ensures Swap(t, target, now, 2)[target] == Row(t[target].kind, true, None)
    ensures t[id].active && t[id].kind == t[target].kind && id != target ==>
      Swap(t, target, now, 2)[id] == Row(t[id].kind, false, Some(now))
  {}

  /** Retrying after any cut ends with the same versions active as an uninterrupted swap. */
  lemma RetryCompletes(t: Table, target: string, now: int, done: nat, later: int, id: string)
    requires target in t && id in t
    ensures Swap(Swap(t, target, now, done), target, later, 2)[id].active == Swap(t, target, now, 2)[id].active
    ensures done > 0 ==> Swap(Swap(t, target, now, done), target, later, 2) == Swap(t, target, now, 2)
  {
    if done > 0 {
      var once := Swap(t, target, now, done);
      var again := Swap(once, target, later, 2);
      forall k | k in t ensures again[k] == Swap(t, target, now, 2)[k] {
      }
      assert again == Swap(t, target, now, 2);
    }
  }

  /** The window without an active version of the type opens exactly when the target was not
      active already. */
  lemma WindowIff(t: Table, target: string, now: int)
    requires target in t
    ensures HasActive(Swap(t, target, now, 1), t[target].kind) <==> t[target].active
  {
    var middle := Swap(t, target, now, 1);
    if t[target].active {
      assert middle[target].active && middle[target].kind == t[target].kind;
    }
  }

  // ---------------------------------------------------------------- many activations

  /** One run of the activation, cut after the first `done` updates. */
  datatype Request = Request(target: string, now: int, done: nat)

  function Perform(t: Table, r: Request): Table {
    if r.target in t then Swap(t, r.target, r.now, r.done) else t
  }

  function Performed(t: Table, rs: seq<Request>): Table
    decreases |rs|
  {
    if rs == [] then t else Performed(Perform(t, rs[0]), rs[1..])
  }

  lemma PerformKeepsKinds(t: Table, r: Request)
    ensures Perform(t, r).Keys == t.Keys
    ensures forall id | id in t :: Perform(t, r)[id].kind == t[id].kind
    ensures OneActive(t) ==> OneActive(Perform(t, r))
  {
    if r.target in t && OneActive(t) {
      EveryCutIsValid(t, r.target, r.now, r.done);
    }
  }

  lemma {:induction false} RunsKeepKinds(t: Table, rs: seq<Request>)
    ensures Performed(t, rs).Keys == t.Keys
    ensures forall id | id in t :: Performed(t, rs)[id].kind == t[id].kind
    ensures OneActive(t) ==> OneActive(Performed(t, rs))
    decreases |rs|
  {
    if rs != [] {
      PerformKeepsKinds(t, rs[0]);
      RunsKeepKinds(Perform(t, rs[0]), rs[1..]);
    }
  }

  lemma {:induction false} RunsSplit(t: Table, left: seq<Request>, right: seq<Request>)
    ensures Performed(t, left + right) == Performed(Performed(t, left), right)
    decreases |left|
  {
    if left == [] {
      assert left + right == right;
    } else {
      assert (left + right)[0] == left[0] && (left + right)[1..] == left[1..] + right;
      RunsSplit(Perform(t, left[0]), left[1..], right);
    }
  }

  /** No activation is about this type. */
  ghost predicate AboutOthers(t: Table, rs: seq<Request>, kind: string) {
    forall r | r in rs && r.target in t :: t[r.target].kind != kind
  }

  lemma {:induction false} OtherTypesStay(t: Table, rs: seq<Request>, id: string)
    requires id in t && AboutOthers(t, rs, t[id].kind)
    ensures id in Performed(t, rs) && Performed(t, rs)[id] == t[id]
    decreases |rs|
  {
    if rs != [] {
      var r, after := rs[0], Perform(t, rs[0]);
      assert r in rs && forall q | q in rs[1..] :: q in rs;
      PerformKeepsKinds(t, r);
      if r.target in t && r.done >= 2 {
        SwapActivatesTarget(t, r.target, r.now, id);
      }
      assert after[id] == t[id];
      OtherTypesStay(after, rs[1..], id);
    }
  }

  /** Whatever activations came before, cut or not and of any type, the last one of a type that
      was not cut leaves exactly its target active in that type, for as long as only other
      types are touched. */
  lemma {:induction false} LastSwapWins(
      t: Table, before: seq<Request>, last: Request, after: seq<Request>, id: string)
    requires last.target in t && last.done >= 2 && AboutOthers(t, after, t[last.target].kind)
    requires id in t && t[id].kind == t[last.target].kind
    ensures Performed(t, before + [last] + after).Keys == t.Keys
    ensures Performed(t, before + [last] + after)[id].active <==> id == last.target
    ensures Performed(t, before + [last] + after)[last.target].retired == None
  {
    var earlier := Performed(t, before);
    var swapped := Perform(earlier, last);
    RunsKeepKinds(t, before + [last] + after);
    RunsKeepKinds(t, before);
    PerformKeepsKinds(earlier, last);
    SwapActivatesTarget(earlier, last.target, last.now, id);
    RunsSplit(t, before + [last], after);
    RunsSplit(t, before, [last]);
    assert Performed(earlier, [last]) == swapped by {
      assert [last][1..] == [];
    }
    OtherTypesStay(swapped, after, id);
    OtherTypesStay(swapped, after, last.target);
  }
}
