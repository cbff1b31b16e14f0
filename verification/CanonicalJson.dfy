/** The request normalisation of strathmark/auth.py: what it accepts, that it is a fixpoint of
    itself, and exactly which payloads it identifies. */
module CanonicalJson {
  import opened Wrappers
  import opened Ordering

  /** What a Python string is made of: every code point, the surrogates 0xD800 to 0xDFFF among them. */
  type CodePoint = c: int | 0 <= c < 0x11_0000

  type PyStr = seq<CodePoint>

  predicate CodeLe(x: CodePoint, y: CodePoint) {
    x <= y
  }

  predicate PyStrLe(a: PyStr, b: PyStr) {
    ListLe(a, b, CodeLe)
  }

  lemma PyStrOrderIsTotal()
    ensures TotalOrder(PyStrLe)
  {
    assert TotalOrder(CodeLe);
    forall a, b ensures (PyStrLe(a, b) || PyStrLe(b, a)) && (PyStrLe(a, b) && PyStrLe(b, a) ==> a == b) {
      ListLeTotal(a, b, CodeLe);
    }
    forall a, b, c | PyStrLe(a, b) && PyStrLe(b, c) ensures PyStrLe(a, c) {
      ListLeTransitive(a, b, c, CodeLe);
    }
  }

  /** The code points of a literal. */
  function Codes(s: string): (r: PyStr)
    ensures |r| == |s| && forall i | 0 <= i < |r| :: r[i] == s[i] as int
  {
    seq(|s|, i requires 0 <= i < |s| => s[i] as int)
  }

  datatype FloatValue = NonFinite | Finite(r: real)

  datatype Key = StrKey(s: PyStr) | OtherKey(id: int)

  datatype Entry = Entry(key: Key, value: Value)

  /** A Python value. A dictionary lists its entries in insertion order. */
  datatype Value =
    | NoneValue
    | Str(text: PyStr)
    | Bool(b: bool)
    | Int(n: int)
    | Float(f: FloatValue)
    | List(items: seq<Value>)
    | Tuple(items: seq<Value>)
    | Dict(entries: seq<Entry>)
    | OtherValue

  datatype Member = Member(name: PyStr, value: Json)

  datatype Json =
    | Null
    | Text(text: PyStr)
    | Flag(b: bool)
    | Whole(n: int)
    | Fraction(r: real)
    | Array(items: seq<Json>)
    | Object(members: seq<Member>)

  // ---------------------------------------------------------------- normalisation

  predicate Integral(r: real) {
    r == r.Floor as real
  }

  /** None where the source raises. */
  function Normalise(v: Value): Option<Json> {
    match v
    case NoneValue => Some(Null)
    case Str(s) => Some(Text(s))
    case Bool(b) => Some(Flag(b))
    case Int(n) => Some(Whole(n))
    case Float(NonFinite) => None
    case Float(Finite(r)) => Some(if Integral(r) then Whole(r.Floor) else Fraction(r))
    case List(items) => NormaliseItems(items)
    case Tuple(items) => NormaliseItems(items)
    case Dict(entries) => NormaliseEntries(entries)
    case OtherValue => None
  }

  function NormaliseItems(items: seq<Value>): (r: Option<Json>)
    ensures r.Some? <==> forall i | 0 <= i < |items| :: Normalise(items[i]).Some?
    ensures r.Some? ==>
              && r.value.Array?
              && |r.value.items| == |items|
              && forall i | 0 <= i < |items| :: Normalise(items[i]) == Some(r.value.items[i])
  {
    if items == [] then Some(Array([]))
    else
      assert forall i | 0 < i < |items| :: items[i] == items[1..][i - 1];
      var first := Normalise(items[0]);
      var rest := NormaliseItems(items[1..]);
      if first.None? || rest.None? then None else Some(Array([first.value] + rest.value.items))
  }

  function NormaliseEntry(e: Entry): (r: Option<Member>)
    ensures r.Some? <==> e.key.StrKey? && Normalise(e.value).Some?
    ensures r.Some? ==> e.key == StrKey(r.value.name) && Normalise(e.value) == Some(r.value.value)
  {
    var value := Normalise(e.value);
    if e.key.OtherKey? || value.None? then None else Some(Member(e.key.s, value.value))
  }

  function NormaliseEntries(entries: seq<Entry>): (r: Option<Json>)
    ensures r.Some? <==> forall i | 0 <= i < |entries| :: NormaliseEntry(entries[i]).Some?
    ensures r.Some? ==>
              && r.value.Object?
              && |r.value.members| == |entries|
              && forall i | 0 <= i < |entries| :: NormaliseEntry(entries[i]) == Some(r.value.members[i])
  {
    if entries == [] then Some(Object([]))
    else
      assert forall i | 0 < i < |entries| :: entries[i] == entries[1..][i - 1];
      var first := NormaliseEntry(entries[0]);
      var rest := NormaliseEntries(entries[1..]);
      if first.None? || rest.None? then None else Some(Object([first.value] + rest.value.members))
  }

  // ---------------------------------------------------------------- what is refused

  ghost predicate Within(sub: Value, v: Value) {
    || sub == v
    || match v
       case List(items) => exists i :: 0 <= i < |items| && Within(sub, items[i])
       case Tuple(items) => exists i :: 0 <= i < |items| && Within(sub, items[i])
       case Dict(entries) => exists i :: 0 <= i < |entries| && Within(sub, entries[i].value)
       case _ => false
  }

  predicate Offends(v: Value) {
    || v == Float(NonFinite)
    || v.OtherValue?
    || (v.Dict? && exists i | 0 <= i < |v.entries| :: v.entries[i].key.OtherKey?)
  }

  ghost predicate HasOffence(v: Value) {
    exists sub :: Within(sub, v) && Offends(sub)
  }

  lemma Inherit(part: Value, whole: Value)
    requires HasOffence(part) && forall sub :: Within(sub, part) ==> Within(sub, whole)
    ensures HasOffence(whole)
  {
    var sub :| Within(sub, part) && Offends(sub);
    assert Within(sub, whole);
  }

  /** A payload is refused exactly when some node of it, however deep, is a non-finite number,
      a mapping with a key that is no string, or a value of an unsupported kind. */
  lemma {:induction false} RefusedIffOffence(v: Value)
    ensures Normalise(v).None? <==> HasOffence(v)
    decreases v
  {
    if Offends(v) {
      assert Within(v, v);
    }
    match v
    case List(items) => SomeItemOffends(v, items);
    case Tuple(items) => SomeItemOffends(v, items);
    case Dict(entries) =>
      forall i | 0 <= i < |entries|
        ensures Normalise(entries[i].value).None? <==> HasOffence(entries[i].value)
        ensures HasOffence(entries[i].value) ==> HasOffence(v)
      {
        RefusedIffOffence(entries[i].value);
        if HasOffence(entries[i].value) {
          Inherit(entries[i].value, v);
        }
      }
      if HasOffence(v) && !Offends(v) {
        var sub :| Within(sub, v) && Offends(sub);
        var i :| 0 <= i < |entries| && Within(sub, entries[i].value);
        assert HasOffence(entries[i].value);
        assert NormaliseEntry(entries[i]).None?;
      }
      if Normalise(v).None? {
        var i :| 0 <= i < |entries| && NormaliseEntry(entries[i]).None?;
        assert Offends(v) || HasOffence(entries[i].value);
      }
    case _ =>
  }

  lemma {:induction false} SomeItemOffends(v: Value, items: seq<Value>)
    requires (v.List? || v.Tuple?) && v.items == items
    ensures Normalise(v).None? <==> HasOffence(v)
    decreases v, 0
  {
    forall i | 0 <= i < |items|
      ensures Normalise(items[i]).None? <==> HasOffence(items[i])
      ensures HasOffence(items[i]) ==> HasOffence(v)
    {
      RefusedIffOffence(items[i]);
      if HasOffence(items[i]) {
        Inherit(items[i], v);
      }
    }
    if HasOffence(v) {
      var sub :| Within(sub, v) && Offends(sub);
      var i :| 0 <= i < |items| && Within(sub, items[i]);
      assert HasOffence(items[i]);
    }
  }

  // ---------------------------------------------------------------- a fixpoint

  /** The Python value that JSON is. */
  function Embed(j: Json): Value {
    match j
    case Null => NoneValue
    case Text(s) => Str(s)
    case Flag(b) => Bool(b)
    case Whole(n) => Int(n)
    case Fraction(r) => Float(Finite(r))
    case Array(items) => List(seq(|items|, i requires 0 <= i < |items| => Embed(items[i])))
    case Object(members) =>
      Dict(seq(|members|, i requires 0 <= i < |members| => Entry(StrKey(members[i].name), Embed(members[i].value))))
  }

  /** No number is written as a fraction when it is whole. */
  predicate Normal(j: Json) {
    match j
    case Fraction(r) => !Integral(r)
    case Array(items) => forall i | 0 <= i < |items| :: Normal(items[i])
    case Object(members) => forall i | 0 <= i < |members| :: Normal(members[i].value)
    case _ => true
  }

  /** Normalising again changes a document exactly when it is not normal yet. */
  lemma {:induction false} FixpointIffNormal(j: Json)
    ensures Normalise(Embed(j)).Some?
    ensures Normalise(Embed(j)) == Some(j) <==> Normal(j)
    decreases j
  {
    match j
    case Array(items) =>
      var values := Embed(j).items;
      forall i | 0 <= i < |items|
        ensures Normalise(values[i]).Some?
        ensures Normalise(values[i]) == Some(items[i]) <==> Normal(items[i])
      {
        FixpointIffNormal(items[i]);
      }
      var out := NormaliseItems(values).value.items;
      assert (forall i | 0 <= i < |items| :: out[i] == items[i]) <==> out == items;
    case Object(members) =>
      var entries := Embed(j).entries;
      forall i | 0 <= i < |members|
        ensures NormaliseEntry(entries[i]).Some?
        ensures Normalise(entries[i].value) == Some(members[i].value) <==> Normal(members[i].value)
      {
        FixpointIffNormal(members[i].value);
      }
      var out := NormaliseEntries(entries).value.members;
      assert (forall i | 0 <= i < |members| :: out[i].value == members[i].value) <==> out == members by {
        assert forall i | 0 <= i < |members| :: out[i].name == members[i].name;
      }
    case _ =>
  }

  lemma {:induction false} NormaliseGivesNormal(v: Value)
    requires Normalise(v).Some?
    ensures Normal(Normalise(v).value)
    decreases v
  {
    match v
    case List(items) =>
      forall i | 0 <= i < |items| ensures Normal(Normalise(items[i]).value) {
        NormaliseGivesNormal(items[i]);
      }
    case Tuple(items) =>
      forall i | 0 <= i < |items| ensures Normal(Normalise(items[i]).value) {
        NormaliseGivesNormal(items[i]);
      }
    case Dict(entries) =>
      forall i | 0 <= i < |entries| ensures Normal(Normalise(entries[i].value).value) {
        assert NormaliseEntry(entries[i]).Some?;
        NormaliseGivesNormal(entries[i].value);
      }
    case _ =>
  }

  lemma Idempotent(v: Value)
    requires Normalise(v).Some?
    ensures Normalise(Embed(Normalise(v).value)) == Normalise(v)
  {
    NormaliseGivesNormal(v);
    FixpointIffNormal(Normalise(v).value);
  }

  // ---------------------------------------------------------------- what is identified

  /** Python dictionaries never repeat a key. */
  ghost predicate Dictionary(v: Value) {
    match v
    case List(items) => forall i | 0 <= i < |items| :: Dictionary(items[i])
    case Tuple(items) => forall i | 0 <= i < |items| :: Dictionary(items[i])
    case Dict(entries) =>
      && (forall i | 0 <= i < |entries| :: Dictionary(entries[i].value))
      && (forall i, j | 0 <= i < j < |entries| :: entries[i].key != entries[j].key)
    case _ => true
  }

  function NumberOf(v: Value): Option<real> {
    match v
    case Int(n) => Some(n as real)
    case Float(Finite(r)) => Some(r)
    case _ => None
  }

  predicate IsSequence(v: Value) {
    v.List? || v.Tuple?
  }

  /** Equal up to list or tuple, whole float or integer, and the order of keys. */
  ghost predicate Agree(a: Value, b: Value)
    decreases a
  {
    if NumberOf(a).Some? then NumberOf(a) == NumberOf(b)
    else if IsSequence(a) then
      && IsSequence(b)
      && |a.items| == |b.items|
      && forall i | 0 <= i < |a.items| :: Agree(a.items[i], b.items[i])
    else if a.Dict? then
      && b.Dict?
      && (forall i | 0 <= i < |a.entries| :: HasKey(b.entries, a.entries[i].key))
      && (forall j | 0 <= j < |b.entries| :: HasKey(a.entries, b.entries[j].key))
      && (forall i, j | 0 <= i < |a.entries| && 0 <= j < |b.entries| && a.entries[i].key == b.entries[j].key ::
            Agree(a.entries[i].value, b.entries[j].value))
    else a == b
  }

  predicate HasKey(entries: seq<Entry>, key: Key) {
    exists i | 0 <= i < |entries| :: entries[i].key == key
  }

  /** The same relation on documents, where only the order of names is left to forget. */
  ghost predicate Same(x: Json, y: Json)
    decreases x
  {
    match x
    case Array(items) =>
      y.Array? && |items| == |y.items| && forall i | 0 <= i < |items| :: Same(items[i], y.items[i])
    case Object(members) =>
      && y.Object?
      && (forall i | 0 <= i < |members| :: HasName(y.members, members[i].name))
      && (forall j | 0 <= j < |y.members| :: HasName(members, y.members[j].name))
      && (forall i, j | 0 <= i < |members| && 0 <= j < |y.members| && members[i].name == y.members[j].name ::
            Same(members[i].value, y.members[j].value))
    case _ => x == y
  }

  predicate HasName(members: seq<Member>, name: PyStr) {
    exists i | 0 <= i < |members| :: members[i].name == name
  }

  ghost predicate Distinct(j: Json) {
    match j
    case Array(items) => forall i | 0 <= i < |items| :: Distinct(items[i])
    case Object(members) =>
      && (forall i | 0 <= i < |members| :: Distinct(members[i].value))
      && Apart(members)
    case _ => true
  }

  ghost predicate Apart(members: seq<Member>) {
    forall i, j | 0 <= i < j < |members| :: members[i].name != members[j].name
  }

  lemma {:induction false} NormaliseKeepsKeysApart(v: Value)
    requires Normalise(v).Some? && Dictionary(v)
    ensures Distinct(Normalise(v).value)
    decreases v
  {
    match v
    case List(items) =>
      forall i | 0 <= i < |items| ensures Distinct(Normalise(items[i]).value) {
        NormaliseKeepsKeysApart(items[i]);
      }
    case Tuple(items) =>
      forall i | 0 <= i < |items| ensures Distinct(Normalise(items[i]).value) {
        NormaliseKeepsKeysApart(items[i]);
      }
    case Dict(entries) =>
      forall i | 0 <= i < |entries| ensures Distinct(Normalise(entries[i].value).value) {
        assert NormaliseEntry(entries[i]).Some?;
        NormaliseKeepsKeysApart(entries[i].value);
      }
    case _ =>
  }

  lemma {:induction false} NormaliseReflects(a: Value, b: Value)
    requires Normalise(a).Some? && Normalise(b).Some?
    ensures Same(Normalise(a).value, Normalise(b).value) <==> Agree(a, b)
    decreases a, 1
  {
    if NumberOf(a).Some? {
      NumbersReflect(a, b);
    } else if IsSequence(a) && IsSequence(b) {
      SequencesReflect(a, b);
    } else if a.Dict? && b.Dict? {
      DictionariesReflect(a, b);
    }
  }

  lemma {:induction false} SequencesReflect(a: Value, b: Value)
    requires Normalise(a).Some? && Normalise(b).Some? && IsSequence(a) && IsSequence(b)
    ensures Same(Normalise(a).value, Normalise(b).value) <==> Agree(a, b)
    decreases a, 0
  {
    if |a.items| == |b.items| {
      forall i | 0 <= i < |a.items|
        ensures Same(Normalise(a.items[i]).value, Normalise(b.items[i]).value) <==> Agree(a.items[i], b.items[i])
      {
        NormaliseReflects(a.items[i], b.items[i]);
      }
    }
  }

  /** Entry by entry, the keys and the values of two dictionaries correspond to their members. */
  ghost predicate Correspond(a: seq<Entry>, b: seq<Entry>, x: seq<Member>, y: seq<Member>) {
    && |x| == |a| && |y| == |b|
    && (forall i | 0 <= i < |a| :: a[i].key == StrKey(x[i].name))
    && (forall j | 0 <= j < |b| :: b[j].key == StrKey(y[j].name))
    && (forall i, j | 0 <= i < |a| && 0 <= j < |b| :: Same(x[i].value, y[j].value) <==> Agree(a[i].value, b[j].value))
  }

  lemma {:induction false} DictionariesReflect(a: Value, b: Value)
    requires Normalise(a).Some? && Normalise(b).Some? && a.Dict? && b.Dict?
    ensures Same(Normalise(a).value, Normalise(b).value) <==> Agree(a, b)
    decreases a, 0
  {
    var x, y := Normalise(a).value.members, Normalise(b).value.members;
    forall i | 0 <= i < |x| ensures NormaliseEntry(a.entries[i]) == Some(x[i]) {}
    forall j | 0 <= j < |y| ensures NormaliseEntry(b.entries[j]) == Some(y[j]) {}
    forall i, j | 0 <= i < |x| && 0 <= j < |y|
      ensures Same(x[i].value, y[j].value) <==> Agree(a.entries[i].value, b.entries[j].value)
    {
      NormaliseReflects(a.entries[i].value, b.entries[j].value);
    }
    CorrespondingAgree(a, b, x, y);
  }

  lemma CorrespondingAgree(a: Value, b: Value, x: seq<Member>, y: seq<Member>)
    requires a.Dict? && b.Dict? && Correspond(a.entries, b.entries, x, y)
    ensures Same(Object(x), Object(y)) <==> Agree(a, b)
  {
    KeysReflect(a.entries, b.entries, x, y);
    KeysReflect(b.entries, a.entries, y, x);
    SameUnfolds(Object(x), Object(y));
    assert (forall i | 0 <= i < |x| :: HasName(y, x[i].name)) <==> Covers(y, x);
    AgreeUnfolds(a, b);
  }

  ghost predicate KeysCovered(cover: seq<Entry>, entries: seq<Entry>) {
    forall i | 0 <= i < |entries| :: HasKey(cover, entries[i].key)
  }

  lemma AgreeUnfolds(a: Value, b: Value)
    requires a.Dict? && b.Dict?
    ensures Agree(a, b)
       <==> && KeysCovered(b.entries, a.entries) && KeysCovered(a.entries, b.entries)
            && forall i, j | 0 <= i < |a.entries| && 0 <= j < |b.entries| && a.entries[i].key == b.entries[j].key ::
                 Agree(a.entries[i].value, b.entries[j].value)
  {}

  lemma NumbersReflect(a: Value, b: Value)
    requires Normalise(a).Some? && Normalise(b).Some? && NumberOf(a).Some?
    ensures Same(Normalise(a).value, Normalise(b).value) <==> NumberOf(a) == NumberOf(b)
  {}

  lemma KeysReflect(a: seq<Entry>, b: seq<Entry>, x: seq<Member>, y: seq<Member>)
    requires |x| == |a| && |y| == |b|
    requires forall i | 0 <= i < |a| :: a[i].key == StrKey(x[i].name)
    requires forall j | 0 <= j < |b| :: b[j].key == StrKey(y[j].name)
    ensures KeysCovered(b, a) <==> Covers(y, x)
  {
    forall i | 0 <= i < |a| ensures HasKey(b, a[i].key) <==> HasName(y, x[i].name) {
      if HasKey(b, a[i].key) {
        var j :| 0 <= j < |b| && b[j].key == a[i].key;
        assert y[j].name == x[i].name;
      }
      if HasName(y, x[i].name) {
        var j :| 0 <= j < |y| && y[j].name == x[i].name;
        assert b[j].key == a[i].key;
      }
    }
  }

  // ---------------------------------------------------------------- the printed form

  function Names(members: seq<Member>): (r: seq<PyStr>)
    ensures |r| == |members| && forall i | 0 <= i < |r| :: r[i] == members[i].name
  {
    seq(|members|, i requires 0 <= i < |members| => members[i].name)
  }

  function ValueOf(members: seq<Member>, name: PyStr): Json
    requires HasName(members, name)
  {
    if members[0].name == name then members[0].value
    else
      assert HasName(members[1..], name) by {
        var i :| 0 <= i < |members| && members[i].name == name;
        assert members[1..][i - 1] == members[i];
      }
      ValueOf(members[1..], name)
  }

  lemma SortedNamesExist(members: seq<Member>)
    ensures forall i | 0 <= i < |members| :: HasName(members, Sort(Names(members), PyStrLe)[i])
  {
    var names := Sort(Names(members), PyStrLe);
    forall i | 0 <= i < |members| ensures HasName(members, names[i]) {
      assert names[i] in multiset(names);
      assert names[i] in Names(members);
    }
  }

  /** The members in the order sort_keys prints them. */
  function ByName(members: seq<Member>): (r: seq<Member>)
    ensures |r| == |members|
  {
    SortedNamesExist(members);
    var names := Sort(Names(members), PyStrLe);
    seq(|members|, i requires 0 <= i < |members| => Member(names[i], ValueOf(members, names[i])))
  }

  /** The document json.dumps prints with sort_keys: names in order at every level. */
  function Canonical(j: Json): Json {
    match j
    case Array(items) => Array(seq(|items|, i requires 0 <= i < |items| => Canonical(items[i])))
    case Object(members) =>
      Object(ByName(CanonicalMembers(members)))
    case _ => j
  }

  function CanonicalMember(m: Member): Member {
    Member(m.name, Canonical(m.value))
  }

  function CanonicalMembers(members: seq<Member>): (r: seq<Member>)
    ensures |r| == |members|
    ensures forall i | 0 <= i < |r| :: r[i] == CanonicalMember(members[i])
  {
    seq(|members|, i requires 0 <= i < |members| => CanonicalMember(members[i]))
  }

  lemma {:induction false} ValueAt(members: seq<Member>, i: nat)
    requires i < |members| && Apart(members)
    ensures HasName(members, members[i].name) && ValueOf(members, members[i].name) == members[i].value
  {
    if i > 0 {
      assert members[0].name != members[i].name;
      assert forall k | 0 <= k < |members| - 1 :: members[1..][k] == members[k + 1];
      ValueAt(members[1..], i - 1);
    }
  }

  lemma {:induction false} CountOfDistinct(names: seq<PyStr>, name: PyStr)
    requires forall i, j | 0 <= i < j < |names| :: names[i] != names[j]
    ensures multiset(names)[name] == if name in names then 1 else 0
  {
    if names != [] {
      CountOfDistinct(names[1..], name);
      assert names == [names[0]] + names[1..];
      assert forall i | 0 <= i < |names| - 1 :: names[1..][i] == names[i + 1];
    }
  }

  lemma MultisetOfNames(members: seq<Member>, name: PyStr)
    requires Apart(members)
    ensures multiset(Names(members))[name] == if HasName(members, name) then 1 else 0
  {
    CountOfDistinct(Names(members), name);
    NameIsListed(members, name);
  }

  ghost predicate Covers(xs: seq<Member>, ys: seq<Member>) {
    forall i | 0 <= i < |ys| :: HasName(xs, ys[i].name)
  }

  /** Names that never repeat are listed in the same order as soon as they are the same. */
  lemma SortedNamesAgree(xs: seq<Member>, ys: seq<Member>)
    requires Apart(xs) && Apart(ys)
    ensures Sort(Names(xs), PyStrLe) == Sort(Names(ys), PyStrLe) <==> Covers(ys, xs) && Covers(xs, ys)
  {
    assert Sort(Names(xs), PyStrLe) == Sort(Names(ys), PyStrLe) <==> multiset(Names(xs)) == multiset(Names(ys)) by {
      PyStrOrderIsTotal();
      SortIsNormalForm(Names(xs), Names(ys), PyStrLe);
    }
    SameNamesSameMultiset(xs, ys);
  }

  lemma SameNamesSameMultiset(xs: seq<Member>, ys: seq<Member>)
    requires Apart(xs) && Apart(ys)
    ensures multiset(Names(xs)) == multiset(Names(ys)) <==> Covers(ys, xs) && Covers(xs, ys)
  {
    if multiset(Names(xs)) == multiset(Names(ys)) {
      CoversFromMultiset(xs, ys);
      CoversFromMultiset(ys, xs);
    } else {
      var name :| multiset(Names(xs))[name] != multiset(Names(ys))[name];
      MultisetOfNames(xs, name);
      MultisetOfNames(ys, name);
    }
  }

  lemma CoversFromMultiset(xs: seq<Member>, ys: seq<Member>)
    requires Apart(xs) && Apart(ys) && multiset(Names(xs)) == multiset(Names(ys))
    ensures Covers(xs, ys)
  {
    forall i | 0 <= i < |ys| ensures HasName(xs, ys[i].name) {
      assert HasName(ys, ys[i].name);
      MultisetOfNames(ys, ys[i].name);
      MultisetOfNames(xs, ys[i].name);
    }
  }

  lemma NameIsListed(members: seq<Member>, name: PyStr)
    ensures HasName(members, name) <==> name in Names(members)
  {
    if HasName(members, name) {
      var i :| 0 <= i < |members| && members[i].name == name;
      assert Names(members)[i] == name;
    }
  }

  ghost predicate SameValues(xs: seq<Member>, ys: seq<Member>) {
    forall i, j | 0 <= i < |xs| && 0 <= j < |ys| && xs[i].name == ys[j].name :: xs[i].value == ys[j].value
  }

  lemma ByNameForgetsOrder(xs: seq<Member>, ys: seq<Member>)
    requires Apart(xs) && Apart(ys)
    ensures ByName(xs) == ByName(ys)
       <==> Covers(ys, xs) && Covers(xs, ys) && SameValues(xs, ys)
  {
    SortedNamesAgree(xs, ys);
    if ByName(xs) == ByName(ys) {
      SameNames(xs, ys);
      forall i, j | 0 <= i < |xs| && 0 <= j < |ys| && xs[i].name == ys[j].name ensures xs[i].value == ys[j].value {
        var k := Position(xs, i);
        ValueAt(xs, i);
        ValueAt(ys, j);
        assert ByName(xs)[k].value == ByName(ys)[k].value;
      }
    } else if Sort(Names(xs), PyStrLe) == Sort(Names(ys), PyStrLe) {
      var names := Sort(Names(xs), PyStrLe);
      var k :| 0 <= k < |names| && ByName(xs)[k] != ByName(ys)[k];
      SortedNamesExist(xs);
      SortedNamesExist(ys);
      var i :| 0 <= i < |xs| && xs[i].name == names[k];
      var j :| 0 <= j < |ys| && ys[j].name == names[k];
      ValueAt(xs, i);
      ValueAt(ys, j);
    }
  }

  lemma SameNames(xs: seq<Member>, ys: seq<Member>)
    requires ByName(xs) == ByName(ys)
    ensures Sort(Names(xs), PyStrLe) == Sort(Names(ys), PyStrLe)
  {
    var s, t := Sort(Names(xs), PyStrLe), Sort(Names(ys), PyStrLe);
    assert |xs| == |ys|;
    forall i | 0 <= i < |s| ensures s[i] == t[i] {
      assert ByName(xs)[i].name == ByName(ys)[i].name;
    }
  }

  lemma Position(members: seq<Member>, i: nat) returns (k: nat)
    requires i < |members|
    ensures k < |members| && Sort(Names(members), PyStrLe)[k] == members[i].name
  {
    var names := Sort(Names(members), PyStrLe);
    assert Names(members)[i] in multiset(Names(members));
    assert members[i].name in multiset(names);
    k :| 0 <= k < |names| && names[k] == members[i].name;
  }

  /** The printed forms coincide exactly when the documents differ in key order only. */
  lemma {:induction false} CanonicalReflects(x: Json, y: Json)
    requires Distinct(x) && Distinct(y)
    ensures Canonical(x) == Canonical(y) <==> Same(x, y)
    decreases x
  {
    if x.Array? && y.Array? {
      ItemsReflect(x, y);
    } else if x.Object? && y.Object? {
      MembersReflect(x, y);
    }
  }

  lemma {:induction false} ItemsReflect(x: Json, y: Json)
    requires Distinct(x) && Distinct(y) && x.Array? && y.Array?
    ensures Canonical(x) == Canonical(y) <==> Same(x, y)
    decreases x, 0
  {
    var xs, ys := Canonical(x).items, Canonical(y).items;
    if |xs| == |ys| {
      forall i | 0 <= i < |xs| ensures xs[i] == ys[i] <==> Same(x.items[i], y.items[i]) {
        CanonicalReflects(x.items[i], y.items[i]);
      }
    }
  }

  lemma CanonicalObject(x: Json)
    requires x.Object?
    ensures Canonical(x) == Object(ByName(CanonicalMembers(x.members)))
  {}

  lemma SameUnfolds(x: Json, y: Json)
    requires x.Object? && y.Object?
    ensures Same(x, y)
       <==> && Covers(y.members, x.members) && Covers(x.members, y.members)
            && forall i, j | 0 <= i < |x.members| && 0 <= j < |y.members| && x.members[i].name == y.members[j].name ::
                 Same(x.members[i].value, y.members[j].value)
  {}

  lemma {:induction false} MembersReflect(x: Json, y: Json)
    requires Distinct(x) && Distinct(y) && x.Object? && y.Object?
    ensures Canonical(x) == Canonical(y) <==> Same(x, y)
    decreases x, 0
  {
    var xs, ys := CanonicalMembers(x.members), CanonicalMembers(y.members);
    forall i, j | 0 <= i < |xs| && 0 <= j < |ys|
      ensures xs[i].value == ys[j].value <==> Same(x.members[i].value, y.members[j].value)
    {
      CanonicalReflects(x.members[i].value, y.members[j].value);
    }
    CanonicalObject(x);
    CanonicalObject(y);
    ByNameForgetsOrder(xs, ys);
    SameHasName(x.members, xs);
    SameHasName(y.members, ys);
    assert Covers(ys, xs) <==> Covers(y.members, x.members);
    assert Covers(xs, ys) <==> Covers(x.members, y.members);
    SameUnfolds(x, y);
  }

  lemma SameHasName(members: seq<Member>, mapped: seq<Member>)
    requires Names(members) == Names(mapped)
    ensures forall name :: HasName(members, name) <==> HasName(mapped, name)
  {
    forall name ensures HasName(members, name) <==> HasName(mapped, name) {
      NameIsListed(members, name);
      NameIsListed(mapped, name);
    }
  }

  // ---------------------------------------------------------------- the order of names

  /** A proper prefix, or the smaller code point where the two first differ. */
  ghost predicate NameBefore(a: PyStr, b: PyStr) {
    exists n: nat :: SmallerAt(a, b, n)
  }

  predicate SmallerAt(a: PyStr, b: PyStr, n: nat) {
    n <= |a| && n < |b| && a[..n] == b[..n] && (n < |a| ==> a[n] < b[n])
  }

  /** At every depth, names come in ascending order. */
  ghost predicate Ascending(j: Json) {
    match j
    case Array(items) => forall i | 0 <= i < |items| :: Ascending(items[i])
    case Object(members) =>
      && (forall i | 0 <= i < |members| :: Ascending(members[i].value))
      && (forall i, k | 0 <= i < k < |members| :: NameBefore(members[i].name, members[k].name))
    case _ => true
  }

  lemma PyStrLeIff(a: PyStr, b: PyStr)
    ensures PyStrLe(a, b) <==> a == b || NameBefore(a, b)
  {
    var lt := (x: CodePoint, y: CodePoint) => x < y;
    ListLeIff(a, b, CodeLe, lt);
    forall n: nat ensures SmallerAt(a, b, n) <==> DiffersAt(a, b, n, lt) {}
  }

  lemma ByNameAscends(members: seq<Member>)
    requires Apart(members)
    ensures forall i, k | 0 <= i < k < |members| :: NameBefore(ByName(members)[i].name, ByName(members)[k].name)
  {
    var sorted := Sort(Names(members), PyStrLe);
    PyStrOrderIsTotal();
    SortSorts(Names(members), PyStrLe);
    forall i, k | 0 <= i < k < |members| ensures NameBefore(ByName(members)[i].name, ByName(members)[k].name) {
      SortedStaysApart(members, i, k);
      PyStrLeIff(sorted[i], sorted[k]);
    }
  }

  lemma SortedStaysApart(members: seq<Member>, i: nat, k: nat)
    requires Apart(members) && i < k < |members|
    ensures Sort(Names(members), PyStrLe)[i] != Sort(Names(members), PyStrLe)[k]
  {
    var sorted := Sort(Names(members), PyStrLe);
    if sorted[i] == sorted[k] {
      MultisetOfNames(members, sorted[i]);
      TwiceCounted(sorted, i, k);
    }
  }

  lemma TwiceCounted(names: seq<PyStr>, i: nat, k: nat)
    requires i < k < |names| && names[i] == names[k]
    ensures multiset(names)[names[i]] >= 2
  {
    assert names == names[..k] + names[k..];
    assert names[..k][i] == names[i] && names[k..][0] == names[i];
    assert names[i] in multiset(names[..k]) && names[i] in multiset(names[k..]);
  }

  lemma {:induction false} CanonicalIsAscending(j: Json)
    requires Distinct(j)
    ensures Ascending(Canonical(j))
    decreases j
  {
    match j
    case Array(items) =>
      forall i | 0 <= i < |items| ensures Ascending(Canonical(items[i])) {
        CanonicalIsAscending(items[i]);
      }
    case Object(members) =>
      forall i | 0 <= i < |members| ensures Ascending(Canonical(members[i].value)) {
        CanonicalIsAscending(members[i].value);
      }
      CanonicalObject(j);
      ByNameAscends(CanonicalMembers(members));
      ByNameKeepsValues(CanonicalMembers(members));
    case _ =>
  }

  /** Every listed member is one of the given ones. */
  lemma ByNameKeepsValues(members: seq<Member>)
    ensures forall k | 0 <= k < |members| :: ByName(members)[k] in members
  {
    SortedNamesExist(members);
    forall k | 0 <= k < |members| ensures ByName(members)[k] in members {
      var i := ValueIsListed(members, ByName(members)[k].name);
      assert ByName(members)[k] == members[i];
    }
  }

  lemma {:induction false} ValueIsListed(members: seq<Member>, name: PyStr) returns (i: nat)
    requires HasName(members, name)
    ensures i < |members| && members[i].name == name && members[i].value == ValueOf(members, name)
  {
    if members[0].name == name {
      i := 0;
    } else {
      var k :| 0 <= k < |members| && members[k].name == name;
      assert members[1..][k - 1] == members[k];
      var j := ValueIsListed(members[1..], name);
      i := j + 1;
    }
  }

  // ---------------------------------------------------------------- the request digest

  /** The versioned envelope whose printed form is hashed; None where the source raises. */
  function Envelope(version: PyStr, payload: Value): Option<Json> {
    if !payload.Dict? then None
    else
      var normal := Normalise(payload);
      if normal.None? then None
      else Some(Canonical(Wrapped(Text(version), normal.value)))
  }

  /** Two accepted requests are hashed from the same text exactly when they agree: no two
      requests that differ in meaning share a digest input. */
  lemma EqualEnvelopesIffAgree(version: PyStr, a: Value, b: Value)
    requires Dictionary(a) && Dictionary(b)
    requires Envelope(version, a).Some? && Envelope(version, b).Some?
    ensures Envelope(version, a) == Envelope(version, b) <==> Agree(a, b)
  {
    var x, y := Normalise(a).value, Normalise(b).value;
    NormaliseKeepsKeysApart(a);
    NormaliseKeepsKeysApart(b);
    NormaliseReflects(a, b);
    EnvelopesReflect(Text(version), x, y);
  }

  lemma EnvelopesReflect(version: Json, x: Json, y: Json)
    requires Distinct(version) && Distinct(x) && Distinct(y) && Same(version, version)
    ensures Canonical(Wrapped(version, x)) == Canonical(Wrapped(version, y)) <==> Same(x, y)
  {
    WrappedIsDistinct(version, x);
    WrappedIsDistinct(version, y);
    CanonicalReflects(Wrapped(version, x), Wrapped(version, y));
    WrappedSame(version, x, y);
  }

  const VERSION_KEY: PyStr := Codes("schema_version")
  const PAYLOAD_KEY: PyStr := Codes("payload")

  lemma KeysDiffer()
    ensures VERSION_KEY != PAYLOAD_KEY
  {
    assert |VERSION_KEY| == |"schema_version"| && |PAYLOAD_KEY| == |"payload"|;
  }

  function Wrapped(version: Json, payload: Json): Json {
    Object([Member(VERSION_KEY, version), Member(PAYLOAD_KEY, payload)])
  }

  lemma WrappedIsDistinct(version: Json, payload: Json)
    requires Distinct(version) && Distinct(payload)
    ensures Distinct(Wrapped(version, payload))
  {
    KeysDiffer();
  }

  lemma WrappedNames(version: Json, payload: Json, name: PyStr)
    ensures HasName(Wrapped(version, payload).members, name) <==> name == VERSION_KEY || name == PAYLOAD_KEY
  {
    var members := Wrapped(version, payload).members;
    assert members[0].name == VERSION_KEY && members[1].name == PAYLOAD_KEY;
  }

  lemma WrappedCovers(version: Json, x: Json, y: Json)
    ensures Covers(Wrapped(version, x).members, Wrapped(version, y).members)
  {
    forall name { WrappedNames(version, x, name); }
  }

  lemma WrappedSame(version: Json, x: Json, y: Json)
    requires Same(version, version)
    ensures Same(Wrapped(version, x), Wrapped(version, y)) <==> Same(x, y)
  {
    var xs, ys := Wrapped(version, x).members, Wrapped(version, y).members;
    WrappedCovers(version, x, y);
    WrappedCovers(version, y, x);
    SameUnfolds(Wrapped(version, x), Wrapped(version, y));
    KeysDiffer();
    assert xs[1].name == ys[1].name && xs[1].value == x && ys[1].value == y;
  }

  /** The hashed document: first the payload, sorted at every depth, then the version. */
  lemma EnvelopeIs(version: PyStr, payload: Value)
    requires Dictionary(payload) && Envelope(version, payload).Some?
    ensures Ascending(Envelope(version, payload).value)
    ensures Envelope(version, payload).value == Object([
      Member(Codes("payload"), Canonical(Normalise(payload).value)),
      Member(Codes("schema_version"), Text(version))])
  {
    var p := Normalise(payload).value;
    NormaliseKeepsKeysApart(payload);
    WrappedIsDistinct(Text(version), p);
    CanonicalIsAscending(Wrapped(Text(version), p));
    TwoMembers(Text(version), p);
  }

  lemma TwoMembers(version: Json, p: Json)
    requires Canonical(version) == version && Distinct(version) && Distinct(p)
    ensures Canonical(Wrapped(version, p))
         == Object([Member(Codes("payload"), Canonical(p)), Member(Codes("schema_version"), version)])
  {
    var wrapped := [Member(VERSION_KEY, version), Member(PAYLOAD_KEY, Canonical(p))];
    CanonicalObject(Wrapped(version, p));
    assert CanonicalMember(Member(VERSION_KEY, version)) == wrapped[0];
    assert CanonicalMembers(Wrapped(version, p).members) == wrapped;
    KeysDiffer();
    ByNameAscends(wrapped);
    ByNameKeepsValues(wrapped);
    var sorted := ByName(wrapped);
    assert NameBefore(sorted[0].name, sorted[1].name);
    PayloadComesFirst();
    assert sorted[0] in wrapped && sorted[1] in wrapped;
    assert sorted == [wrapped[1], wrapped[0]];
  }

  lemma PayloadComesFirst()
    ensures !NameBefore(VERSION_KEY, PAYLOAD_KEY)
    ensures !NameBefore(VERSION_KEY, VERSION_KEY) && !NameBefore(PAYLOAD_KEY, PAYLOAD_KEY)
  {
    assert VERSION_KEY[0] == 's' as int && PAYLOAD_KEY[0] == 'p' as int;
    forall n: nat ensures !SmallerAt(VERSION_KEY, PAYLOAD_KEY, n) {
      assert 0 < n <= |VERSION_KEY| && n < |PAYLOAD_KEY| ==>
        VERSION_KEY[..n][0] != PAYLOAD_KEY[..n][0];
    }
  }
}
