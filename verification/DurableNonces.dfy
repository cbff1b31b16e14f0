/** One-shot assertions over the durable ledger of strathmark/ledger.py. A claim reads the clock
    and checks the expiry, then opens the database and waits for the write lock; its transaction
    purges by that stamp, however old it is by then. */
module DurableNonces {
  import opened Attestation
  import opened Authorisation
  import opened NonceReplay
  import Tallies

  // ---------------------------------------------------------------- transactions in commit order

  /** One transaction: the assertion it claims for and the stamp it carries. */
  datatype Attempt = Attempt(token: Token, stamp: int)

  function Outcomes(claims: Claims, t: Attempt): (Outcome, Claims) {
    Transact(claims, t.token.consumer, t.token.nonce, t.token.expires, t.stamp)
  }

  function ClaimsAfter(ts: seq<Attempt>): Claims {
    if ts == [] then map[]
    else
      var last := |ts| - 1;
      Outcomes(ClaimsAfter(ts[..last]), ts[last]).1
  }

  predicate Accepts(ts: seq<Attempt>, i: int)
    requires 0 <= i < |ts|
  {
    Outcomes(ClaimsAfter(ts[..i]), ts[i]).0 == Claimed
  }

  /** Some assertion is accepted twice. */
  ghost predicate Repeats(ts: seq<Attempt>) {
    exists k, j :: 0 <= k < j < |ts| && ts[k].token == ts[j].token && Accepts(ts, k) && Accepts(ts, j)
  }

  /** Only claims whose stamp lies in the assertion's window get as far as a transaction. */
  ghost predicate InTime(ts: seq<Attempt>) {
    forall i | 0 <= i < |ts| :: InWindow(ts[i].token.issued, ts[i].token.expires, ts[i].stamp)
  }

  function Stamps(ts: seq<Attempt>): (r: seq<int>)
    ensures |r| == |ts| && forall i | 0 <= i < |r| :: r[i] == ts[i].stamp
  {
    seq(|ts|, i requires 0 <= i < |ts| => ts[i].stamp)
  }

  /** Between the transactions k and j, close enough for one assertion's window, another one
      ran whose stamp is later than both. */
  predicate OvertakenAt(stamps: seq<int>, k: int, i: int, j: int) {
    && 0 <= k < i < j < |stamps|
    && stamps[k] < stamps[i] && stamps[j] < stamps[i]
    && -(MAX_LIFETIME + MAX_SKEW) < stamps[k] - stamps[j] < MAX_LIFETIME + MAX_SKEW
  }

  ghost predicate Overtaken(stamps: seq<int>) {
    exists k, i, j :: OvertakenAt(stamps, k, i, j)
  }

  // ---------------------------------------------------------------- a repetition needs an overtaking

  lemma OneMoreTransaction(ts: seq<Attempt>, m: int)
    requires 0 < m <= |ts|
    ensures ClaimsAfter(ts[..m]) == Outcomes(ClaimsAfter(ts[..m - 1]), ts[m - 1]).1
  {
    assert ts[..m][..m - 1] == ts[..m - 1] && ts[..m][m - 1] == ts[m - 1];
  }

  lemma {:induction false} ClaimStands(ts: seq<Attempt>, k: int, m: int)
    requires 0 <= k < m <= |ts| && Accepts(ts, k)
    requires forall i | k < i < m :: ts[i].stamp < ts[k].token.expires
    ensures KeyOf(ts[k].token) in ClaimsAfter(ts[..m])
    ensures ClaimsAfter(ts[..m])[KeyOf(ts[k].token)] == ts[k].token.expires
    decreases m
  {
    OneMoreTransaction(ts, m);
    if k < m - 1 {
      ClaimStands(ts, k, m - 1);
    }
  }

  lemma {:induction false} RepeatIsOvertaken(ts: seq<Attempt>, k: int, j: int)
    requires InTime(ts) && 0 <= k < j < |ts| && ts[k].token == ts[j].token
    requires Accepts(ts, k) && Accepts(ts, j)
    ensures Overtaken(Stamps(ts))
  {
    if forall i | k < i < j :: ts[i].stamp < ts[k].token.expires {
      ClaimStands(ts, k, j);
    } else {
      var i :| k < i < j && ts[i].stamp >= ts[k].token.expires;
      assert OvertakenAt(Stamps(ts), k, i, j);
    }
  }

  // ---------------------------------------------------------------- an overtaking makes room for one

  const REPLAYED := ("c", "n")
  const BYSTANDER := ("d", "n")

  function Deadline(stamps: seq<int>, k: int, j: int): int
    requires 0 <= k < |stamps| && 0 <= j < |stamps|
  {
    1 + if stamps[k] < stamps[j] then stamps[j] else stamps[k]
  }

  /** The transactions k and j present one assertion that expires right after both stamps; all
      others belong to another consumer. */
  function AttemptAt(stamps: seq<int>, k: int, j: int, m: int): Attempt
    requires 0 <= k < |stamps| && 0 <= j < |stamps| && 0 <= m < |stamps|
  {
    var deadline := Deadline(stamps, k, j);
    if m == k || m == j then Attempt(Token(0, "c", "n", deadline - MAX_LIFETIME, deadline), stamps[m])
    else Attempt(Token(m + 1, "d", "n", stamps[m], stamps[m] + MAX_LIFETIME), stamps[m])
  }

  function Replay(stamps: seq<int>, k: int, j: int): (r: seq<Attempt>)
    requires 0 <= k < |stamps| && 0 <= j < |stamps|
    ensures |r| == |stamps| && forall m | 0 <= m < |r| :: r[m] == AttemptAt(stamps, k, j, m)
  {
    seq(|stamps|, m requires 0 <= m < |stamps| => AttemptAt(stamps, k, j, m))
  }

  /** With two keys in the table no consumer is full. */
  lemma TwoKeysFit(claims: Claims, consumer: string)
    requires claims.Keys <= {REPLAYED, BYSTANDER}
    ensures |HeldBy(claims, consumer)| < MAX_ACTIVE
  {
    assert HeldBy(claims, consumer) <= {REPLAYED, BYSTANDER};
    Tallies.SubsetsAreSmaller(HeldBy(claims, consumer), {REPLAYED, BYSTANDER});
  }

  /** Where the replayed claim is after m transactions: absent up to k, and gone again from the
      overtaking one until j. */
  ghost predicate InPlace(claims: Claims, stamps: seq<int>, k: int, i: int, j: int, m: int)
    requires OvertakenAt(stamps, k, i, j)
  {
    && claims.Keys <= {REPLAYED, BYSTANDER}
    && (REPLAYED in claims ==> claims[REPLAYED] == Deadline(stamps, k, j))
    && (m <= k || i < m <= j ==> REPLAYED !in claims)
  }

  lemma AttemptKeepsPlace(claims: Claims, stamps: seq<int>, k: int, i: int, j: int, m: nat)
    requires OvertakenAt(stamps, k, i, j) && m < |stamps| && InPlace(claims, stamps, k, i, j, m)
    ensures InPlace(Outcomes(claims, AttemptAt(stamps, k, j, m)).1, stamps, k, i, j, m + 1)
  {
    var t := AttemptAt(stamps, k, j, m);
    TwoKeysFit(Alive(claims, t.stamp), t.token.consumer);
  }

  lemma {:induction false} ReplayedClaim(stamps: seq<int>, k: int, i: int, j: int, m: nat)
    requires OvertakenAt(stamps, k, i, j) && m <= |stamps|
    ensures InPlace(ClaimsAfter(Replay(stamps, k, j)[..m]), stamps, k, i, j, m)
  {
    var ts := Replay(stamps, k, j);
    if m > 0 {
      ReplayedClaim(stamps, k, i, j, m - 1);
      OneMoreTransaction(ts, m);
      AttemptKeepsPlace(ClaimsAfter(ts[..m - 1]), stamps, k, i, j, m - 1);
    }
  }

  lemma {:induction false} OvertakenRepeats(stamps: seq<int>, k: int, i: int, j: int)
    requires OvertakenAt(stamps, k, i, j)
    ensures InTime(Replay(stamps, k, j)) && Stamps(Replay(stamps, k, j)) == stamps && Repeats(Replay(stamps, k, j))
  {
    var ts := Replay(stamps, k, j);
    forall m | m == k || m == j ensures Accepts(ts, m) {
      ReplayedClaim(stamps, k, i, j, m);
      TwoKeysFit(Alive(ClaimsAfter(ts[..m]), ts[m].stamp), "c");
    }
  }

  /** Known only by their stamps in commit order, transactions accept every assertion at most
      once, whatever assertions they carry, exactly when none of them is overtaken. */
  lemma ScheduleIsOneShotIff(stamps: seq<int>)
    ensures (forall ts: seq<Attempt> | InTime(ts) && Stamps(ts) == stamps :: !Repeats(ts)) <==> !Overtaken(stamps)
  {
    if Overtaken(stamps) {
      var k, i, j :| OvertakenAt(stamps, k, i, j);
      OvertakenRepeats(stamps, k, i, j);
    }
    forall ts: seq<Attempt> | InTime(ts) && Stamps(ts) == stamps && Repeats(ts) ensures Overtaken(stamps) {
      var k, j :| 0 <= k < j < |ts| && ts[k].token == ts[j].token && Accepts(ts, k) && Accepts(ts, j);
      RepeatIsOvertaken(ts, k, j);
    }
  }

  // ---------------------------------------------------------------- calls and the clock

  datatype Call = Validated(token: Token) | Stamped(token: Token, stamp: int)

  /** The claims are those of the transactions in `log`. */
  datatype World = World(now: int, calls: map<nat, Call>, log: seq<Attempt>)

  datatype Move = Pass(later: int) | Present(call: nat, token: Token) | ReadClock(call: nat) | Commit(call: nat)

  function Fresh(now: int): World {
    World(now, map[], [])
  }

  /** A ledger that reads the clock `inside` its transaction has no stamp to carry there. */
  ghost predicate Possible(w: World, move: Move, inside: bool) {
    match move
    case Pass(later) => w.now <= later
    case Present(call, token) => call !in w.calls && InWindow(token.issued, token.expires, w.now)
    case ReadClock(call) => !inside && call in w.calls && w.calls[call].Validated?
    case Commit(call) => call in w.calls && (if inside then w.calls[call].Validated? else w.calls[call].Stamped?)
  }

  function Make(w: World, move: Move, inside: bool): World
    requires Possible(w, move, inside)
  {
    match move
    case Pass(later) => w.(now := later)
    case Present(call, token) => w.(calls := w.calls[call := Validated(token)])
    case ReadClock(call) =>
      var token := w.calls[call].token;
      if token.expires <= w.now then w.(calls := w.calls - {call})
      else w.(calls := w.calls[call := Stamped(token, w.now)])
    case Commit(call) =>
      var c := w.calls[call];
      var stamp := if inside then w.now else c.stamp;
      var ended := w.(calls := w.calls - {call});
      if c.token.expires <= stamp then ended else ended.(log := w.log + [Attempt(c.token, stamp)])
  }

  ghost predicate Plays(w: World, moves: seq<Move>, inside: bool)
    decreases |moves|
  {
    moves != [] ==> Possible(w, moves[0], inside) && Plays(Make(w, moves[0], inside), moves[1..], inside)
  }

  function Played(w: World, moves: seq<Move>, inside: bool): World
    requires Plays(w, moves, inside)
    decreases |moves|
  {
    if moves == [] then w else Played(Make(w, moves[0], inside), moves[1..], inside)
  }

  ghost predicate Orderly(w: World, inside: bool) {
    && InTime(w.log)
    && (forall call | call in w.calls ::
          var c := w.calls[call];
          && c.token.issued - MAX_SKEW <= w.now
          && c.token.issued < c.token.expires <= c.token.issued + MAX_LIFETIME
          && (c.Stamped? ==> InWindow(c.token.issued, c.token.expires, c.stamp)))
    && (inside ==> forall i | 0 <= i < |w.log| :: w.log[i].stamp <= w.now)
    && (inside ==> forall i, j | 0 <= i < j < |w.log| :: w.log[i].stamp <= w.log[j].stamp)
  }

  lemma MoveKeepsOrderly(w: World, move: Move, inside: bool)
    requires Orderly(w, inside) && Possible(w, move, inside)
    ensures Orderly(Make(w, move, inside), inside)
  {}

  lemma {:induction false} RunsAreOrderly(w: World, moves: seq<Move>, inside: bool)
    requires Orderly(w, inside) && Plays(w, moves, inside)
    ensures Orderly(Played(w, moves, inside), inside)
    decreases |moves|
  {
    if moves != [] {
      MoveKeepsOrderly(w, moves[0], inside);
      RunsAreOrderly(Make(w, moves[0], inside), moves[1..], inside);
    }
  }

  /** In any interleaving in which no transaction is overtaken, the durable ledger accepts each
      assertion at most once, and every acceptance carries a stamp of its window. */
  lemma RunIsOneShotUnlessOvertaken(now: int, moves: seq<Move>, inside: bool)
    requires Plays(Fresh(now), moves, inside)
    requires !Overtaken(Stamps(Played(Fresh(now), moves, inside).log))
    ensures !Repeats(Played(Fresh(now), moves, inside).log)
    ensures forall t | t in Played(Fresh(now), moves, inside).log ::
      t.token.issued - 5 <= t.stamp < t.token.issued + 60
  {
    RunsAreOrderly(Fresh(now), moves, inside);
    ScheduleIsOneShotIff(Stamps(Played(Fresh(now), moves, inside).log));
    var log := Played(Fresh(now), moves, inside).log;
    forall t | t in log ensures t.token.issued - 5 <= t.stamp < t.token.issued + 60 {
      var i :| 0 <= i < |log| && log[i] == t;
      assert InWindow(log[i].token.issued, log[i].token.expires, log[i].stamp);
    }
  }

  // ---------------------------------------------------------------- where the clock is read

  /** The replay reads 59 and waits; at 60 another claim purges; the replay then commits. */
  function LockWait(): seq<Move> {
    var token, other := Token(0, "c", "n", 0, 60), Token(2, "d", "n", 60, 120);
    [Present(0, token), Pass(5), ReadClock(0), Commit(0),
     Pass(59), Present(1, token), ReadClock(1),
     Pass(60), Present(2, other), ReadClock(2), Commit(2),
     Commit(1)]
  }

  ghost predicate EndsReplayed(w: World, i: nat) {
    && i <= |LockWait()|
    && Plays(w, LockWait()[i..], false)
    && Played(w, LockWait()[i..], false).log == Replay([5, 60, 59], 0, 2)
  }

  lemma LockWaitStep(w: World, i: nat)
    requires i < |LockWait()| && Possible(w, LockWait()[i], false)
    requires EndsReplayed(Make(w, LockWait()[i], false), i + 1)
    ensures EndsReplayed(w, i)
  {
    var moves := LockWait();
    assert moves[i..][0] == moves[i] && moves[i..][1..] == moves[i + 1..];
  }

  lemma LockWaitPlays(w0: World)
    requires w0 == Fresh(0)
    ensures EndsReplayed(w0, 0)
  {
    LockWaitAfterFirst(Make(w0, LockWait()[0], false));
    LockWaitStep(w0, 0);
  }

  lemma LockWaitAfterFirst(w1: World)
    requires w1 == World(0, map[0 := Validated(Token(0, "c", "n", 0, 60))], [])
    ensures EndsReplayed(w1, 1)
  {
    LockWaitBegins(Make(w1, LockWait()[1], false));
    LockWaitStep(w1, 1);
  }

  lemma LockWaitBegins(w2: World)
    requires w2 == World(5, map[0 := Validated(Token(0, "c", "n", 0, 60))], [])
    ensures EndsReplayed(w2, 2)
  {
    var moves, token := LockWait(), Token(0, "c", "n", 0, 60);
    var w3 := Make(w2, moves[2], false);
    assert w3 == World(5, map[0 := Stamped(token, 5)], []);
    var w4 := Make(w3, moves[3], false);
    assert w4 == World(5, map[], [Attempt(token, 5)]);
    LockWaitGoesOn(w4);
    LockWaitStep(w3, 3);
    LockWaitStep(w2, 2);
  }

  lemma LockWaitGoesOn(w4: World)
    requires w4 == World(5, map[], [Attempt(Token(0, "c", "n", 0, 60), 5)])
    ensures EndsReplayed(w4, 4)
  {
    var moves, token := LockWait(), Token(0, "c", "n", 0, 60);
    var w5 := Make(w4, moves[4], false);
    var w6 := Make(w5, moves[5], false);
    var w7 := Make(w6, moves[6], false);
    assert w7 == World(59, map[1 := Stamped(token, 59)], [Attempt(token, 5)]);
    LockWaitEnds(w7);
    LockWaitStep(w6, 6);
    LockWaitStep(w5, 5);
    LockWaitStep(w4, 4);
  }

  lemma LockWaitEnds(w7: World)
    requires w7 == World(59, map[1 := Stamped(Token(0, "c", "n", 0, 60), 59)], [Attempt(Token(0, "c", "n", 0, 60), 5)])
    ensures EndsReplayed(w7, 7)
  {
    var moves, token, other := LockWait(), Token(0, "c", "n", 0, 60), Token(2, "d", "n", 60, 120);
    var w8 := Make(w7, moves[7], false);
    var w9 := Make(w8, moves[8], false);
    var w10 := Make(w9, moves[9], false);
    var w11 := Make(w10, moves[10], false);
    assert w11 == World(60, map[1 := Stamped(token, 59)], [Attempt(token, 5), Attempt(other, 60)]);
    var w12 := Make(w11, moves[11], false);
    assert Replay([5, 60, 59], 0, 2) == [Attempt(token, 5), Attempt(other, 60), Attempt(token, 59)];
    assert w12.log == Replay([5, 60, 59], 0, 2) && moves[12..] == [];
    LockWaitStep(w11, 11);
    LockWaitStep(w10, 10);
    LockWaitStep(w9, 9);
    LockWaitStep(w8, 8);
    LockWaitStep(w7, 7);
  }

  /** So the durable ledger, which reads the clock before it waits for the lock, can accept an
      assertion twice. */
  lemma LockWaitRepeats()
    ensures Plays(Fresh(0), LockWait(), false) && Repeats(Played(Fresh(0), LockWait(), false).log)
  {
    LockWaitPlays(Fresh(0));
    assert LockWait()[0..] == LockWait();
    assert OvertakenAt([5, 60, 59], 0, 1, 2);
    OvertakenRepeats([5, 60, 59], 0, 1, 2);
  }

  ghost predicate NeverRepeats(now: int, moves: seq<Move>, inside: bool) {
    Plays(Fresh(now), moves, inside) ==> !Repeats(Played(Fresh(now), moves, inside).log)
  }

  /** Over all interleavings assertions are one-shot if and only if the clock is read inside
      the transaction. */
  lemma OneShotIffReadInside(inside: bool)
    ensures (forall now, moves :: NeverRepeats(now, moves, inside)) <==> inside
  {
    if inside {
      forall now, moves ensures NeverRepeats(now, moves, inside) {
        if Plays(Fresh(now), moves, inside) {
          ReadInsideIsOneShot(now, moves);
        }
      }
    } else {
      LockWaitRepeats();
      assert !NeverRepeats(0, LockWait(), inside);
    }
  }

  lemma ReadInsideIsOneShot(now: int, moves: seq<Move>)
    requires Plays(Fresh(now), moves, true)
    ensures !Repeats(Played(Fresh(now), moves, true).log)
  {
    RunsAreOrderly(Fresh(now), moves, true);
    var log := Played(Fresh(now), moves, true).log;
    StampsInOrder(log);
    RunIsOneShotUnlessOvertaken(now, moves, true);
  }

  lemma StampsInOrder(log: seq<Attempt>)
    requires forall i, j | 0 <= i < j < |log| :: log[i].stamp <= log[j].stamp
    ensures !Overtaken(Stamps(log))
  {
    forall k, i, j ensures !OvertakenAt(Stamps(log), k, i, j) {
      assert 0 <= i < j < |log| ==> log[i].stamp <= log[j].stamp;
    }
  }
}
