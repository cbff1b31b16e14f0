/** The platform markers of scripts/verify_toolchain.py: a strict evaluator for a language of
    two types, and the lock file reader that consults it. */
module MarkerEvaluator {
  import opened Wrappers

  datatype Connective = And | Or

  datatype Comparison = Eq | NotEq | OtherComparison

  /** A parsed marker. Unsupported is every node the evaluator does not know. */
  datatype Expr =
    | Text(text: string)
    | Name(id: string)
    | BoolOp(op: Connective, values: seq<Expr>)
    | Compare(left: Expr, ops: seq<Comparison>, comparators: seq<Expr>)
    | Unsupported

  datatype Value = StringValue(s: string) | BoolValue(b: bool)

  type Environment = map<string, string>

  // ---------------------------------------------------------------- the evaluator

  /** None where the source raises. */
  function Evaluate(e: Expr, env: Environment): Option<Value> {
    match e
    case Text(s) => Some(StringValue(s))
    case Name(id) => if id in env then Some(StringValue(env[id])) else None
    case BoolOp(op, values) =>
      (match EvaluateAll(values, env)
       case None => None
       case Some(vs) =>
         if exists i | 0 <= i < |vs| :: !vs[i].BoolValue? then None
         else if op == And then Some(BoolValue(forall i | 0 <= i < |vs| :: vs[i].b))
         else Some(BoolValue(exists i | 0 <= i < |vs| :: vs[i].b)))
    case Compare(left, ops, comparators) =>
      if |ops| != 1 || comparators == [] then None
      else
        var l, r := Evaluate(left, env), Evaluate(comparators[0], env);
        if l.None? || r.None? || !l.value.StringValue? || !r.value.StringValue? then None
        else if ops[0] == Eq then Some(BoolValue(l.value.s == r.value.s))
        else if ops[0] == NotEq then Some(BoolValue(l.value.s != r.value.s))
        else None
    case Unsupported => None
  }

  function EvaluateAll(es: seq<Expr>, env: Environment): Option<seq<Value>> {
    if es == [] then Some([])
    else
      var first := Evaluate(es[0], env);
      var rest := EvaluateAll(es[1..], env);
      if first.None? || rest.None? then None else Some([first.value] + rest.value)
  }

  /** What the source answers for a marker; None is its ValueError. */
  function MarkerApplies(e: Expr, env: Environment): Option<bool> {
    match Evaluate(e, env)
    case Some(BoolValue(b)) => Some(b)
    case _ => None
  }

  // ---------------------------------------------------------------- the language it accepts

  predicate IsString(e: Expr, env: Environment) {
    e.Text? || (e.Name? && e.id in env)
  }

  predicate IsBool(e: Expr, env: Environment) {
    match e
    case BoolOp(_, values) => forall v | v in values :: IsBool(v, env)
    case Compare(left, ops, comparators) =>
      && (ops == [Eq] || ops == [NotEq])
      && comparators != []
      && IsString(left, env) && IsString(comparators[0], env)
    case _ => false
  }

  /** Each chained comparison carries one right side per operator, as Python's parser builds it. */
  predicate WellFormed(e: Expr) {
    match e
    case BoolOp(_, values) => forall v | v in values :: WellFormed(v)
    case Compare(left, ops, comparators) =>
      && |ops| == |comparators| >= 1
      && WellFormed(left)
      && (forall c | c in comparators :: WellFormed(c))
    case _ => true
  }

  function Meaning(e: Expr, env: Environment): string
    requires IsString(e, env)
  {
    if e.Text? then e.text else env[e.id]
  }

  /** What a well-typed marker means. */
  ghost predicate Holds(e: Expr, env: Environment)
    requires IsBool(e, env)
  {
    match e
    case BoolOp(And, values) => forall v | v in values :: Holds(v, env)
    case BoolOp(Or, values) => exists v :: v in values && Holds(v, env)
    case Compare(left, ops, comparators) =>
      (Meaning(left, env) == Meaning(comparators[0], env)) == (ops[0] == Eq)
  }

  // ---------------------------------------------------------------- soundness and completeness

  lemma StringsEvaluate(e: Expr, env: Environment)
    ensures IsString(e, env) ==> Evaluate(e, env) == Some(StringValue(Meaning(e, env)))
    ensures Evaluate(e, env).Some? && Evaluate(e, env).value.StringValue? ==> IsString(e, env)
  {}

  lemma {:induction false} AllEvaluate(es: seq<Expr>, env: Environment)
    ensures AllEvaluated(es, EvaluateAll(es, env), env)
  {
    if es != [] {
      AllEvaluate(es[1..], env);
      assert forall i | 0 < i < |es| :: es[i] == es[1..][i - 1];
    }
  }

  /** The evaluator answers exactly on the well-typed boolean markers, and what it answers is
      what they mean. */
  lemma {:induction false} SoundAndComplete(e: Expr, env: Environment)
    ensures MarkerApplies(e, env).Some? <==> IsBool(e, env)
    ensures IsBool(e, env) ==> MarkerApplies(e, env) == Some(Holds(e, env))
    decreases e
  {
    match e
    case BoolOp(op, values) =>
      AllEvaluate(values, env);
      forall i | 0 <= i < |values|
        ensures Agrees(values[i], env)
      {
        SoundAndComplete(values[i], env);
      }
      ConnectivesAgree(e, env);
    case Compare(left, ops, comparators) =>
      StringsEvaluate(left, env);
      if |ops| == 1 && comparators != [] {
        StringsEvaluate(comparators[0], env);
        assert ops == [ops[0]];
      }
    case _ =>
  }

  /** What the connectives make of operands that evaluate as they should. */
  lemma ConnectivesAgree(e: Expr, env: Environment)
    requires e.BoolOp? && AllEvaluated(e.values, EvaluateAll(e.values, env), env)
    requires forall i | 0 <= i < |e.values| :: Agrees(e.values[i], env)
    ensures MarkerApplies(e, env).Some? <==> IsBool(e, env)
    ensures IsBool(e, env) ==> MarkerApplies(e, env) == Some(Holds(e, env))
  {
    if IsBool(e, env) {
      TypedOperands(e, EvaluateAll(e.values, env), env);
    } else {
      UntypedOperand(e, EvaluateAll(e.values, env), env);
    }
  }

  ghost predicate AllEvaluated(es: seq<Expr>, all: Option<seq<Value>>, env: Environment) {
    && (all.Some? <==> forall i | 0 <= i < |es| :: Evaluate(es[i], env).Some?)
    && (all.Some? ==> |all.value| == |es| && forall i | 0 <= i < |es| :: Evaluate(es[i], env) == Some(all.value[i]))
  }

  ghost predicate Agrees(e: Expr, env: Environment) {
    && (MarkerApplies(e, env).Some? <==> IsBool(e, env))
    && (IsBool(e, env) ==> MarkerApplies(e, env) == Some(Holds(e, env)))
  }

  lemma TypedOperands(e: Expr, all: Option<seq<Value>>, env: Environment)
    requires e.BoolOp? && IsBool(e, env) && AllEvaluated(e.values, all, env)
    requires forall i | 0 <= i < |e.values| :: Agrees(e.values[i], env)
    ensures all.Some? && forall i | 0 <= i < |e.values| :: all.value[i].BoolValue?
    ensures e.op == And ==> (Holds(e, env) <==> forall i | 0 <= i < |e.values| :: all.value[i].b)
    ensures e.op == Or ==> (Holds(e, env) <==> exists i | 0 <= i < |e.values| :: all.value[i].b)
  {
    var values := e.values;
    forall i | 0 <= i < |values|
      ensures IsBool(values[i], env) && Evaluate(values[i], env) == Some(BoolValue(Holds(values[i], env)))
    {
      assert values[i] in values && Agrees(values[i], env);
    }
    assert forall i | 0 <= i < |values| :: all.value[i] == BoolValue(Holds(values[i], env));
    if e.op == And {
      assert Holds(e, env) <==> forall v | v in values :: Holds(v, env);
    } else {
      assert Holds(e, env) <==> exists v :: v in values && Holds(v, env);
    }
  }

  lemma UntypedOperand(e: Expr, all: Option<seq<Value>>, env: Environment)
    requires e.BoolOp? && !IsBool(e, env) && AllEvaluated(e.values, all, env)
    requires forall i | 0 <= i < |e.values| :: Agrees(e.values[i], env)
    ensures all.Some? ==> exists i | 0 <= i < |e.values| :: !all.value[i].BoolValue?
  {
    var v :| v in e.values && !IsBool(v, env);
    var i :| 0 <= i < |e.values| && e.values[i] == v;
    assert Agrees(e.values[i], env);
    if all.Some? {
      assert Evaluate(e.values[i], env) == Some(all.value[i]);
      assert !all.value[i].BoolValue?;
    }
  }

  // ---------------------------------------------------------------- nothing is hidden

  /** The node sub occurs somewhere in e. */
  ghost predicate Within(sub: Expr, e: Expr) {
    || sub == e
    || match e
       case BoolOp(_, values) => exists v :: v in values && Within(sub, v)
       case Compare(left, _, comparators) =>
         Within(sub, left) || exists c :: c in comparators && Within(sub, c)
       case _ => false
  }

  /** Every node of a marker the evaluator answers is itself well typed: an unknown name or
      an unsupported node is refused wherever it stands. */
  lemma {:induction false} NothingIsHidden(sub: Expr, e: Expr, env: Environment)
    requires WellFormed(e) && MarkerApplies(e, env).Some? && Within(sub, e)
    ensures IsBool(sub, env) || IsString(sub, env)
    decreases e
  {
    SoundAndComplete(e, env);
    if sub != e {
      match e
      case BoolOp(_, values) =>
        var v :| v in values && Within(sub, v);
        SoundAndComplete(v, env);
        NothingIsHidden(sub, v, env);
      case Compare(left, ops, comparators) =>
        assert |ops| == 1 && comparators == [comparators[0]];
        assert IsString(left, env) && IsString(comparators[0], env);
        assert Within(sub, left) ==> sub == left;
        assert Within(sub, comparators[0]) ==> sub == comparators[0];
    }
  }

  /** The evaluator one would get from Python's own and/or: it stops at the deciding operand. */
  function Shortcut(e: Expr, env: Environment): Option<bool>
    decreases e
  {
    match e
    case BoolOp(op, values) => ShortcutFrom(op, values, env)
    case _ => MarkerApplies(e, env)
  }

  function ShortcutFrom(op: Connective, values: seq<Expr>, env: Environment): Option<bool>
    decreases values
  {
    if values == [] then Some(op == And)
    else
      var first := Shortcut(values[0], env);
      if first.None? || first.value == (op == Or) then first
      else ShortcutFrom(op, values[1..], env)
  }

  /** Strictness costs no answer: where the strict evaluator answers, a short-circuiting one
      answers the same. */
  lemma {:induction false} ShortcutAgrees(e: Expr, env: Environment)
    requires MarkerApplies(e, env).Some?
    ensures Shortcut(e, env) == MarkerApplies(e, env)
    decreases e, 1, 0
  {
    SoundAndComplete(e, env);
    if e.BoolOp? {
      ShortcutFromAgrees(e, 0, env);
    }
  }

  lemma {:induction false} ShortcutFromAgrees(e: Expr, from: nat, env: Environment)
    requires e.BoolOp? && IsBool(e, env) && from <= |e.values|
    ensures ShortcutFrom(e.op, e.values[from..], env)
            == Some(if e.op == And then forall i | from <= i < |e.values| :: Holds(e.values[i], env)
                    else exists i :: from <= i < |e.values| && Holds(e.values[i], env))
    decreases e, 0, |e.values| - from
  {
    if from < |e.values| {
      var v := e.values[from];
      assert v in e.values && IsBool(v, env);
      SoundAndComplete(v, env);
      assert MarkerApplies(v, env).Some?;
      ShortcutAgrees(v, env);
      assert e.values[from..][0] == v && e.values[from..][1..] == e.values[from + 1..];
      ShortcutFromAgrees(e, from + 1, env);
    }
  }

  /** Strictness refuses more: here short-circuiting would have hidden the unsupported node. */
  lemma ShortcutHides(env: Environment)
    ensures
      var marker := BoolOp(Or, [Compare(Text("a"), [Eq], [Text("a")]), Unsupported]);
      Shortcut(marker, env) == Some(true) && MarkerApplies(marker, env) == None
  {
    var first := Compare(Text("a"), [Eq], [Text("a")]);
    var marker := BoolOp(Or, [first, Unsupported]);
    SoundAndComplete(marker, env);
    assert Unsupported in marker.values && !IsBool(Unsupported, env);
    SoundAndComplete(first, env);
    assert Shortcut(first, env) == Some(true);
    assert marker.values[0] == first;
  }

  // ---------------------------------------------------------------- the hash lock

  type Identity = (string, string)

  datatype Marker = NoMarker | SyntaxError | Parsed(e: Expr)

  /** One logical line of the lock after parsing. */
  datatype Line =
    | Blank
    | Malformed
    | Requirement(identity: Identity, marker: Marker, hashes: set<string>)

  datatype LockError = UnreadableLine | UnsupportedMarker | EmptyLock

  predicate Refused(line: Line, env: Environment) {
    || line.Malformed?
    || (line.Requirement? && (line.marker.SyntaxError? || (line.marker.Parsed? && !IsBool(line.marker.e, env))))
  }

  ghost predicate Selected(line: Line, env: Environment) {
    && line.Requirement?
    && (line.marker.NoMarker?
        || (line.marker.Parsed? && IsBool(line.marker.e, env) && Holds(line.marker.e, env)))
  }

  /** Exactly the hashes that some selected line pins for this identity. */
  ghost predicate Pins(lines: seq<Line>, identity: Identity, hash: string, env: Environment) {
    exists k :: 0 <= k < |lines| && Selected(lines[k], env) && lines[k].identity == identity && hash in lines[k].hashes
  }

  ghost predicate Mentions(lines: seq<Line>, identity: Identity, env: Environment) {
    exists k :: 0 <= k < |lines| && Selected(lines[k], env) && lines[k].identity == identity
  }

  ghost predicate IsTableOf(table: map<Identity, set<string>>, lines: seq<Line>, env: Environment) {
    && (forall id :: id in table <==> Mentions(lines, id, env))
    && (forall id, hash | id in table :: hash in table[id] <==> Pins(lines, id, hash, env))
  }

  lemma Extend(table: map<Identity, set<string>>, lines: seq<Line>, line: Line, env: Environment)
    requires IsTableOf(table, lines, env)
    ensures !Selected(line, env) ==> IsTableOf(table, lines + [line], env)
    ensures Selected(line, env) ==>
      var before := if line.identity in table then table[line.identity] else {};
      IsTableOf(table[line.identity := before + line.hashes], lines + [line], env)
  {
    var longer := lines + [line];
    assert longer[|lines|] == line && forall k | 0 <= k < |lines| :: longer[k] == lines[k];
    forall id ensures Mentions(longer, id, env) <==> (Mentions(lines, id, env) || (Selected(line, env) && line.identity == id)) {
      if Mentions(lines, id, env) {
        var k :| 0 <= k < |lines| && Selected(lines[k], env) && lines[k].identity == id;
        assert longer[k] == lines[k];
      }
      assert Selected(line, env) && line.identity == id ==> Mentions(longer, id, env) by {
        assert longer[|lines|] == line;
      }
    }
    forall id, hash
      ensures Pins(longer, id, hash, env)
         <==> (Pins(lines, id, hash, env) || (Selected(line, env) && line.identity == id && hash in line.hashes))
    {
      if Pins(lines, id, hash, env) {
        var k :| 0 <= k < |lines| && Selected(lines[k], env) && lines[k].identity == id && hash in lines[k].hashes;
        assert longer[k] == lines[k];
      }
      assert Selected(line, env) && line.identity == id && hash in line.hashes ==> Pins(longer, id, hash, env) by {
        assert longer[|lines|] == line;
      }
    }
  }

  /** The lock is refused exactly when some line is unreadable, some marker is not a well-typed
      boolean, or nothing is selected; otherwise every identity carries exactly the hashes
      pinned by the lines that apply here. */
  method LockedHashes(lines: seq<Line>, env: Environment)
    returns (result: Result<map<Identity, set<string>>, LockError>)
    ensures result.Ok? <==>
              && (forall k | 0 <= k < |lines| :: !Refused(lines[k], env))
              && (exists k | 0 <= k < |lines| :: Selected(lines[k], env))
    ensures result.Ok? ==> IsTableOf(result.value, lines, env)
    ensures result == Err(EmptyLock) ==> forall k | 0 <= k < |lines| :: !Refused(lines[k], env)
  {
    var table: map<Identity, set<string>> := map[];
    var i := 0;
    while i < |lines|
      invariant 0 <= i <= |lines|
      invariant forall k | 0 <= k < i :: !Refused(lines[k], env)
      invariant IsTableOf(table, lines[..i], env)
    {
      var line := lines[i];
      assert lines[..i + 1] == lines[..i] + [line];
      Extend(table, lines[..i], line, env);
      i := i + 1;
      if line.Blank? {
        continue;
      }
      if line.Malformed? {
        return Err(UnreadableLine);
      }
      if !line.marker.NoMarker? {
        if line.marker.SyntaxError? {
          return Err(UnsupportedMarker);
        }
        SoundAndComplete(line.marker.e, env);
        var applies := MarkerApplies(line.marker.e, env);
        if applies.None? {
          return Err(UnsupportedMarker);
        }
        if !applies.value {
          continue;
        }
      }
      var before := if line.identity in table then table[line.identity] else {};
      table := table[line.identity := before + line.hashes];
    }
    assert lines[..i] == lines;
    if table == map[] {
      forall k | 0 <= k < |lines| ensures !Selected(lines[k], env) {
        assert Selected(lines[k], env) ==> Mentions(lines, lines[k].identity, env);
      }
      return Err(EmptyLock);
    }
    var id :| id in table;
    assert Mentions(lines, id, env);
    return Ok(table);
  }
}
