/** Overlaying the frozen consumer contract on the generated API description
    (_rewrite_schema_ref and _authoritative_openapi in strathmark/api.py).

    A schema reference is the string under a `$ref` key (the Reference Object, section
    4.8.23 of OpenAPI 3.1.0). Its meaning is what it leads to, so the meaning of a
    fragment is its unfolding: the tree in which every resolvable reference is replaced by
    the schema it names, to any depth. Names do not occur in an unfolding, which is why a
    renaming can preserve it. */
module OpenApiMerge {
  import opened Wrappers
  import opened Ordering

  datatype Json =
    | Null
    | Flag(flag: bool)
    | Number(number: real)
    | Text(text: string)
    | Array(items: seq<Json>)
    | Object(fields: map<string, Json>)

  const REF := "$ref"
  const PREFIX := "#/components/schemas/"
  const SCHEMAS := "schemas"

  function Ref(name: string): string {
    PREFIX + name
  }

  function Legacy(name: string): string {
    "Legacy" + name
  }

  lemma RefInjective(a: string, b: string)
    ensures Ref(a) == Ref(b) ==> a == b
    ensures Legacy(a) == Legacy(b) ==> a == b
  {
    assert Ref(a)[|PREFIX|..] == a && Ref(b)[|PREFIX|..] == b;
    assert Legacy(a)[6..] == a && Legacy(b)[6..] == b;
  }

  /** A description with its three levels of dictionaries opened up: everything outside
      `paths` and `components`, the path items, and the components by kind and name. */
  datatype Document = Document(
    rest: map<string, Json>, paths: map<string, Json>, components: map<string, map<string, Json>>)

  function Schemas(d: Document): map<string, Json> {
    Table(d.components, SCHEMAS)
  }

  /** Components are objects (or booleans), never bare strings. */
  ghost predicate Shaped(schemas: map<string, Json>) {
    forall n | n in schemas :: !schemas[n].Text?
  }

  // ---------------------------------------------------------------- rewriting references

  /** One pass of the recursive rewrite. */
  function Rewrite(v: Json, before: string, after: string): Json {
    match v
    case Object(fields) =>
      Object(map k | k in fields ::
               if k == REF && fields[k] == Text(before) then Text(after)
               else Rewrite(fields[k], before, after))
    case Array(items) =>
      Array(seq(|items|, i requires 0 <= i < |items| => Rewrite(items[i], before, after)))
    case _ => v
  }

  function RewriteFields(fields: map<string, Json>, before: string, after: string): map<string, Json> {
    Rewrite(Object(fields), before, after).fields
  }

  /** All renamings at once. */
  function Rename(v: Json, names: map<string, string>): Json {
    match v
    case Object(fields) =>
      Object(map k | k in fields ::
               if k == REF && fields[k].Text? && fields[k].text in names then Text(names[fields[k].text])
               else Rename(fields[k], names))
    case Array(items) =>
      Array(seq(|items|, i requires 0 <= i < |items| => Rename(items[i], names)))
    case _ => v
  }

  function RenameFields(fields: map<string, Json>, names: map<string, string>): map<string, Json> {
    Rename(Object(fields), names).fields
  }

  lemma {:induction false} RenameNothing(v: Json)
    ensures Rename(v, map[]) == v
  {
    match v
    case Object(fields) =>
      forall k | k in fields ensures Rename(v, map[]).fields[k] == fields[k] {
        RenameNothing(fields[k]);
      }
    case Array(items) =>
      forall i | 0 <= i < |items| ensures Rename(v, map[]).items[i] == items[i] {
        RenameNothing(items[i]);
      }
    case _ =>
  }

  /** Passes compose: one more rewrite after a renaming is the renaming with one more name,
      as long as the new pass neither starts from an old name nor from a new one. */
  lemma {:induction false} RewriteAfterRename(v: Json, names: map<string, string>, before: string, after: string)
    requires before !in names && before !in names.Values
    ensures Rewrite(Rename(v, names), before, after) == Rename(v, names[before := after])
  {
    var left, right := Rewrite(Rename(v, names), before, after), Rename(v, names[before := after]);
    match v
    case Object(fields) =>
      forall k | k in fields ensures left.fields[k] == right.fields[k] {
        RewriteAfterRename(fields[k], names, before, after);
        var renamed := Rename(v, names).fields;
        if k == REF && fields[k].Text? {
          if fields[k].text in names {
            assert names[fields[k].text] in names.Values;
            assert renamed[k] == Text(names[fields[k].text]) != Text(before);
            assert left.fields[k] == Rewrite(renamed[k], before, after) == renamed[k];
          }
        } else {
          assert renamed[k] == Rename(fields[k], names);
          assert k == REF ==> !renamed[k].Text?;
          assert left.fields[k] == Rewrite(renamed[k], before, after);
          assert right.fields[k] == Rename(fields[k], names[before := after]);
        }
      }
      assert left.fields == right.fields;
    case Array(items) =>
      forall i | 0 <= i < |items| ensures left.items[i] == right.items[i] {
        RewriteAfterRename(items[i], names, before, after);
      }
      assert left.items == right.items;
    case _ =>
  }

  // ---------------------------------------------------------------- the merge

  /** The reference strings renamed for a set of shared component names. */
  function RefNames(names: set<string>): (renaming: map<string, string>)
    ensures forall n :: Ref(n) in renaming <==> n in names
    ensures forall n | n in names :: renaming[Ref(n)] == Ref(Legacy(n))
    ensures forall r | r in renaming :: exists n :: n in names && r == Ref(n)
  {
    var strip := (r: string) => if |r| >= |PREFIX| then r[|PREFIX|..] else r;
    assert forall n :: strip(Ref(n)) == n by {
      forall n ensures strip(Ref(n)) == n {
        assert Ref(n)[|PREFIX|..] == n;
      }
    }
    var refs := set n | n in names :: Ref(n);
    forall n ensures Ref(n) in refs <==> n in names {
      assert strip(Ref(n)) == n;
    }
    map r | r in refs :: Ref(Legacy(strip(r)))
  }

  function NewName(names: set<string>, n: string): string {
    if n in names then Legacy(n) else n
  }

  /** The entries of a schema table under their new names. */
  function Moved(schemas: map<string, Json>, names: set<string>): map<string, Json> {
    map k | k in (schemas.Keys - names) + (set n | n in names && n in schemas :: Legacy(n)) ::
      if k in schemas.Keys - names then schemas[k] else schemas[k[6..]]
  }

  /** The generated description with the given component names made Legacy everywhere. */
  function Renamed(d: Document, names: set<string>): Document {
    Stage(d, RefNames(names), names)
  }

  function Stage(d: Document, refs: map<string, string>, names: set<string>): Document {
    Document(
      RenameFields(d.rest, refs),
      RenameFields(d.paths, refs),
      RenameKinds(d.components, refs)[SCHEMAS := Moved(RenameFields(Schemas(d), refs), names)])
  }

  function RenameKinds(components: map<string, map<string, Json>>, refs: map<string, string>)
    : map<string, map<string, Json>>
  {
    map kind | kind in components :: RenameFields(components[kind], refs)
  }

  function Overlay(d: Document, frozen: Document): Document {
    Document(d.rest, d.paths + frozen.paths, OverlayKinds(d.components, frozen.components))
  }

  function OverlayKinds(components: map<string, map<string, Json>>, frozen: map<string, map<string, Json>>)
    : map<string, map<string, Json>>
  {
    map kind | kind in components.Keys + frozen.Keys :: Table(components, kind) + Table(frozen, kind)
  }

  function Table(components: map<string, map<string, Json>>, kind: string): map<string, Json> {
    if kind in components then components[kind] else map[]
  }

  function Shared(generated: Document, frozen: Document): set<string> {
    Schemas(generated).Keys * Schemas(frozen).Keys
  }

  function Merged(generated: Document, frozen: Document): Document {
    Overlay(Renamed(generated, Shared(generated, frozen)), frozen)
  }

  /** The one error: a generated component has the legacy name of a shared one, and has not
      itself been renamed out of the way first because its own name sorts earlier. */
  predicate Collides(generated: Document, frozen: Document) {
    var shared := Shared(generated, frozen);
    exists n | n in shared :: Blocked(generated, shared, n)
  }

  function RewriteDocument(d: Document, before: string, after: string): Document {
    Document(
      RewriteFields(d.rest, before, after),
      RewriteFields(d.paths, before, after),
      RewriteKinds(d.components, before, after))
  }

  function RewriteKinds(components: map<string, map<string, Json>>, before: string, after: string)
    : map<string, map<string, Json>>
  {
    map kind | kind in components :: RewriteFields(components[kind], before, after)
  }

  function Popped(schemas: map<string, Json>, n: string): map<string, Json>
    requires n in schemas
  {
    (schemas - {n})[Legacy(n) := schemas[n]]
  }

  lemma RenameKeepsShape(schemas: map<string, Json>, names: map<string, string>)
    requires Shaped(schemas)
    ensures RenameFields(schemas, names).Keys == schemas.Keys
    ensures forall n | n in schemas :: RenameFields(schemas, names)[n] == Rename(schemas[n], names)
    ensures Shaped(RenameFields(schemas, names))
  {}

  lemma RewriteFieldsAfterRename(fields: map<string, Json>, names: map<string, string>, before: string, after: string)
    requires before !in names && before !in names.Values
    ensures RewriteFields(RenameFields(fields, names), before, after) == RenameFields(fields, names[before := after])
  {
    RewriteAfterRename(Object(fields), names, before, after);
  }

  lemma OneMoreName(names: set<string>, n: string)
    requires n !in names && forall m | m in names :: Legacy(m) != n
    ensures Ref(n) !in RefNames(names) && Ref(n) !in RefNames(names).Values
    ensures RefNames(names)[Ref(n) := Ref(Legacy(n))] == RefNames(names + {n})
  {
    NewNameIsNoTarget(names, n);
    var ref, target := (m: string) => Ref(m), (m: string) => Ref(Legacy(m));
    forall a: string, b: string | ref(a) == ref(b) ensures a == b {
      RefInjective(a, b);
    }
    RefNamesRename(names);
    RefNamesRename(names + {n});
    NamesExtend(RefNames(names), RefNames(names + {n}), names, n, ref, target);
  }

  lemma RefNamesRename(names: set<string>)
    ensures Renames(RefNames(names), names, (m: string) => Ref(m), (m: string) => Ref(Legacy(m)))
  {
    RenamesByReference(RefNames(names), names, (m: string) => Ref(m), (m: string) => Ref(Legacy(m)));
  }

  lemma RenamesByReference(
      refs: map<string, string>, names: set<string>, ref: string -> string, target: string -> string)
    requires forall n | n in names :: ref(n) in refs && refs[ref(n)] == target(n)
    requires forall r | r in refs :: exists n :: n in names && r == ref(n)
    ensures Renames(refs, names, ref, target)
  {}

  lemma NewNameIsNoTarget(names: set<string>, n: string)
    requires forall m | m in names :: Legacy(m) != n
    ensures Ref(n) !in RefNames(names).Values
  {
    var refs := RefNames(names);
    forall r | r in refs ensures refs[r] != Ref(n) {
      var m :| m in names && r == Ref(m);
      RefInjective(Legacy(m), n);
    }
  }

  /** The renaming that sends the reference of each name to its target, for any way of writing
      references that keeps names apart. */
  ghost predicate Renames(
      refs: map<string, string>, names: set<string>, ref: string -> string, target: string -> string)
  {
    && (forall m | m in names :: ref(m) in refs && refs[ref(m)] == target(m))
    && (forall r | r in refs :: exists m :: m in names && r == ref(m))
  }

  ghost predicate KeepsApart(ref: string -> string) {
    forall a, b :: ref(a) == ref(b) ==> a == b
  }

  lemma NamesExtend(
      small: map<string, string>, big: map<string, string>, names: set<string>, n: string,
      ref: string -> string, target: string -> string)
    requires KeepsApart(ref) && n !in names
    requires Renames(small, names, ref, target) && Renames(big, names + {n}, ref, target)
    ensures small[ref(n) := target(n)] == big
  {
    forall r ensures r in big <==> r in small || r == ref(n) {
      SameDomain(small, big, names, n, r, ref, target);
    }
    forall r | r in big ensures big[r] == if r == ref(n) then target(n) else small[r] {
      SameTarget(small, big, names, n, r, ref, target);
    }
    ExtendedBy(small, big, ref(n), target(n));
  }

  lemma ExtendedBy(small: map<string, string>, big: map<string, string>, key: string, value: string)
    requires forall r :: r in big <==> r in small || r == key
    requires forall r | r in big :: big[r] == if r == key then value else small[r]
    ensures small[key := value] == big
  {}

  lemma SameDomain(
      small: map<string, string>, big: map<string, string>, names: set<string>, n: string, r: string,
      ref: string -> string, target: string -> string)
    requires Renames(small, names, ref, target) && Renames(big, names + {n}, ref, target)
    ensures r in big <==> r in small || r == ref(n)
  {
    if r in big {
      var m :| m in names + {n} && r == ref(m);
      assert m in names || m == n;
    }
    if r in small {
      var m :| m in names && r == ref(m);
      assert m in names + {n};
    }
    assert n in names + {n};
  }

  lemma SameTarget(
      small: map<string, string>, big: map<string, string>, names: set<string>, n: string, r: string,
      ref: string -> string, target: string -> string)
    requires KeepsApart(ref) && n !in names
    requires Renames(small, names, ref, target) && Renames(big, names + {n}, ref, target) && r in big
    ensures r == ref(n) ==> big[r] == target(n)
    ensures r != ref(n) ==> r in small && big[r] == small[r]
  {
    var m :| m in names + {n} && r == ref(m);
    assert m == n || m in names;
  }

  /** The code's own check before each turn: the legacy name is still free. */
  ghost predicate Free(schemas: map<string, Json>, names: set<string>, n: string) {
    && n in schemas.Keys - names
    && Legacy(n) !in Moved(schemas, names)
    && forall m | m in names :: Legacy(m) !in schemas.Keys - names
  }

  lemma {:induction false} MoveOneMore(schemas: map<string, Json>, names: set<string>, n: string, before: string, after: string)
    requires Shaped(schemas) && names <= schemas.Keys && Free(schemas, names, n)
    ensures n in Moved(schemas, names)
    ensures RewriteFields(Popped(Moved(schemas, names), n), before, after)
            == Moved(RewriteFields(schemas, before, after), names + {n})
  {
    var moved := Moved(schemas, names);
    var left := RewriteFields(Popped(moved, n), before, after);
    var right := Moved(RewriteFields(schemas, before, after), names + {n});
    forall m ensures Legacy(m)[6..] == m {}
    forall k ensures k in left <==> k in right {
      if k in moved && k !in schemas.Keys - names {
        assert k == Legacy(k[6..]);
      }
      if k in right && k !in schemas.Keys - (names + {n}) {
        assert k == Legacy(k[6..]);
      }
      RefInjective(k[if |k| < 6 then 0 else 6..], n);
    }
    forall k | k in left ensures left[k] == right[k] {
      assert k in Popped(moved, n) && !Popped(moved, n)[k].Text?;
      if k != Legacy(n) && k !in schemas.Keys - names {
        assert k == Legacy(k[6..]);
      }
    }
  }

  /** One turn of the renaming loop adds one name to the renaming of the whole document. */
  lemma {:induction false} RenameOneMore(d: Document, names: set<string>, n: string)
    requires Shaped(Schemas(d)) && names <= Schemas(d).Keys && Free(Schemas(d), names, n)
    ensures var stage := Renamed(d, names);
            && n in Schemas(stage)
            && RewriteDocument(
                 stage.(components := stage.components[SCHEMAS := Popped(Schemas(stage), n)]),
                 Ref(n), Ref(Legacy(n)))
               == Renamed(d, names + {n})
  {
    OneMoreName(names, n);
    StageOneMore(d, RefNames(names), names, n, Ref(n), Ref(Legacy(n)));
  }

  lemma {:induction false} StageOneMore(
      d: Document, refs: map<string, string>, names: set<string>, n: string, before: string, after: string)
    requires Shaped(Schemas(d)) && names <= Schemas(d).Keys && Free(Schemas(d), names, n)
    requires before !in refs && before !in refs.Values
    ensures var stage := Stage(d, refs, names);
            && n in Schemas(stage)
            && RewriteDocument(
                 stage.(components := stage.components[SCHEMAS := Popped(Schemas(stage), n)]), before, after)
               == Stage(d, refs[before := after], names + {n})
  {
    var renamed := RenameFields(Schemas(d), refs);
    RenameKeepsShape(Schemas(d), refs);
    MoveOneMore(renamed, names, n, before, after);
    RewriteFieldsAfterRename(Schemas(d), refs, before, after);
    RewriteFieldsAfterRename(d.rest, refs, before, after);
    RewriteFieldsAfterRename(d.paths, refs, before, after);
    RewriteKindsAfterRename(d.components, refs, before, after);
    KindsOneMore(RenameKinds(d.components, refs), Moved(renamed, names), n, before, after);
  }

  lemma KindsOneMore(
      kinds: map<string, map<string, Json>>, moved: map<string, Json>, n: string, before: string, after: string)
    requires n in moved
    ensures RewriteKinds(kinds[SCHEMAS := moved][SCHEMAS := Popped(moved, n)], before, after)
            == RewriteKinds(kinds, before, after)[SCHEMAS := RewriteFields(Popped(moved, n), before, after)]
  {
    assert kinds[SCHEMAS := moved][SCHEMAS := Popped(moved, n)] == kinds[SCHEMAS := Popped(moved, n)];
    RewriteKindsUpdate(kinds, Popped(moved, n), before, after);
  }

  lemma RewriteKindsAfterRename(
      components: map<string, map<string, Json>>, names: map<string, string>, before: string, after: string)
    requires before !in names && before !in names.Values
    ensures RewriteKinds(RenameKinds(components, names), before, after)
            == RenameKinds(components, names[before := after])
  {
    forall kind | kind in components
      ensures RewriteFields(RenameFields(components[kind], names), before, after)
              == RenameFields(components[kind], names[before := after])
    {
      RewriteFieldsAfterRename(components[kind], names, before, after);
    }
  }

  lemma RewriteKindsUpdate(
      components: map<string, map<string, Json>>, table: map<string, Json>, before: string, after: string)
    ensures RewriteKinds(components[SCHEMAS := table], before, after)
            == RewriteKinds(components, before, after)[SCHEMAS := RewriteFields(table, before, after)]
  {}

  // ---------------------------------------------------------------- the description service

  datatype MergeError = LegacyCollision(name: string)

  /** The processed names are those that sort before everything still to do. */
  ghost predicate Turn(shared: set<string>, remaining: set<string>) {
    remaining <= shared && forall m, n | m in shared - remaining && n in remaining :: StringLess(m, n)
  }

  /** At its turn in sorted order a name is refused exactly when Collides says so of it. */
  lemma {:induction false} RefusedAtItsTurn(schemas: map<string, Json>, shared: set<string>, remaining: set<string>, n: string)
    requires shared <= schemas.Keys && Turn(shared, remaining)
    requires n in remaining && forall m | m in remaining :: StringLe(n, m)
    ensures Legacy(n) in Moved(schemas, shared - remaining) <==>
            Legacy(n) in schemas && !(Legacy(n) in shared && StringLess(Legacy(n), n))
  {
    var names := shared - remaining;
    assert Legacy(n)[6..] == n;
    if Legacy(n) in shared {
      if Legacy(n) in remaining {
        StringLeTotal(n, Legacy(n));
      }
    }
    forall m | m in names ensures Legacy(m) != Legacy(n) {
      RefInjective(m, n);
    }
  }

  /** Between two turns: `d` carries exactly the renamings done, none of which was refused. */
  ghost predicate Between(generated: Document, shared: set<string>, remaining: set<string>, d: Document) {
    && Turn(shared, remaining)
    && d == Renamed(generated, shared - remaining)
    && Cleared(generated, shared, shared - remaining)
  }

  ghost predicate Cleared(generated: Document, shared: set<string>, names: set<string>) {
    forall m | m in names :: Legacy(m) !in Schemas(generated).Keys - names && !Blocked(generated, shared, m)
  }

  predicate Blocked(generated: Document, shared: set<string>, n: string) {
    Legacy(n) in Schemas(generated) && !(Legacy(n) in shared && StringLess(Legacy(n), n))
  }

  lemma {:induction false} FirstTurn(generated: Document, shared: set<string>)
    ensures Between(generated, shared, shared, generated.(components :=
              if SCHEMAS in generated.components then generated.components
              else generated.components[SCHEMAS := map[]]))
  {
    assert shared - shared == {};
    RenamedNothing(generated);
  }

  lemma {:induction false} NextCheck(generated: Document, shared: set<string>, remaining: set<string>, d: Document, name: string)
    requires shared <= Schemas(generated).Keys && Between(generated, shared, remaining, d)
    requires name in remaining && forall m | m in remaining :: StringLe(name, m)
    ensures name in Schemas(d)
    ensures Legacy(name) in Schemas(d) <==> Blocked(generated, shared, name)
  {
    assert Schemas(d).Keys == Moved(Schemas(generated), shared - remaining).Keys by {
      RenamedKeys(generated, shared - remaining);
    }
    RefusedAtItsTurn(Schemas(generated), shared, remaining, name);
  }

  lemma RenamedKeys(d: Document, names: set<string>)
    ensures Schemas(Renamed(d, names)).Keys == Moved(Schemas(d), names).Keys
  {}

  lemma {:induction false} NextTurn(generated: Document, shared: set<string>, remaining: set<string>, d: Document, name: string)
    requires Shaped(Schemas(generated)) && shared <= Schemas(generated).Keys
    requires Between(generated, shared, remaining, d)
    requires name in remaining && forall m | m in remaining :: StringLe(name, m)
    requires name in Schemas(d) && Legacy(name) !in Schemas(d)
    ensures var popped := d.(components := d.components[SCHEMAS := Popped(Schemas(d), name)]);
            Between(generated, shared, remaining - {name}, RewriteDocument(popped, Ref(name), Ref(Legacy(name))))
  {
    var names, rest := shared - remaining, remaining - {name};
    assert shared - rest == names + {name};
    FreeAtItsTurn(generated, shared, remaining, d, name);
    RenameOneMore(generated, names, name);
    TurnPasses(shared, remaining, name);
    BetweenAgain(generated, shared, rest, Renamed(generated, names + {name}));
  }

  lemma FreeAtItsTurn(generated: Document, shared: set<string>, remaining: set<string>, d: Document, name: string)
    requires shared <= Schemas(generated).Keys && Between(generated, shared, remaining, d)
    requires name in remaining && forall m | m in remaining :: StringLe(name, m)
    requires name in Schemas(d) && Legacy(name) !in Schemas(d)
    ensures Free(Schemas(generated), shared - remaining, name)
    ensures Cleared(generated, shared, shared - remaining + {name})
  {
    NextCheck(generated, shared, remaining, d, name);
    RenamedKeys(generated, shared - remaining);
  }

  lemma BetweenAgain(generated: Document, shared: set<string>, remaining: set<string>, d: Document)
    requires Turn(shared, remaining)
    requires d == Renamed(generated, shared - remaining)
    requires Cleared(generated, shared, shared - remaining)
    ensures Between(generated, shared, remaining, d)
  {}

  lemma TurnPasses(shared: set<string>, remaining: set<string>, name: string)
    requires Turn(shared, remaining)
    requires name in remaining && forall m | m in remaining :: StringLe(name, m)
    ensures Turn(shared, remaining - {name})
  {
    forall m, n | m in shared - (remaining - {name}) && n in remaining - {name} ensures StringLess(m, n) {
      if m == name {
        StringLeTotal(m, n);
      }
    }
  }

  lemma {:induction false} LastTurn(generated: Document, frozen: Document, d: Document)
    requires Between(generated, Shared(generated, frozen), {}, d)
    ensures !Collides(generated, frozen) && Overlay(d, frozen) == Merged(generated, frozen)
  {
    var shared := Shared(generated, frozen);
    assert shared - {} == shared;
    forall n | n in shared ensures !Blocked(generated, shared, n) {}
  }

  // ---------------------------------------------------------------- what the description holds

  /** The entries of one dictionary: the frozen ones verbatim, then the generated ones with
      their references renamed, and nothing else. */
  ghost predicate Holds(
      merged: map<string, Json>, generated: map<string, Json>, frozen: map<string, Json>, refs: map<string, string>)
  {
    && merged.Keys == generated.Keys + frozen.Keys
    && (forall k | k in frozen :: merged[k] == frozen[k])
    && (forall k | k in generated && k !in frozen && !(k == REF && generated[k].Text?) ::
          merged[k] == Rename(generated[k], refs))
  }

  /** The schemas: the frozen ones verbatim, each shared generated one under its legacy name and
      every other one under its own, with their references renamed, and nothing else. */
  ghost predicate HoldsSchemas(
      merged: map<string, Json>, generated: map<string, Json>, frozen: map<string, Json>, refs: map<string, string>)
  {
    && (forall k :: k in merged <==>
          || k in frozen
          || k in generated
          || exists n :: n in generated && n in frozen && k == "Legacy" + n)
    && (forall k | k in frozen :: merged[k] == frozen[k])
    && (forall k | k in generated && k !in frozen :: merged[k] == Rename(generated[k], refs))
    && (forall n | n in generated && n in frozen && Legacy(n) !in frozen ::
          Legacy(n) in merged && merged[Legacy(n)] == Rename(generated[n], refs))
  }

  /** The published description, entry by entry: everything outside paths and components is the
      generated document's; paths and components are the two sides' and nothing else. */
  ghost predicate Contents(merged: Document, generated: Document, frozen: Document) {
    ContentsBy(merged, generated, frozen, RefNames(Schemas(generated).Keys * Schemas(frozen).Keys))
  }

  ghost predicate ContentsBy(merged: Document, generated: Document, frozen: Document, refs: map<string, string>) {
    && Holds(merged.rest, generated.rest, map[], refs)
    && Holds(merged.paths, generated.paths, frozen.paths, refs)
    && merged.components.Keys == generated.components.Keys + frozen.components.Keys
    && (forall kind | kind in merged.components && kind != "schemas" ::
          Holds(merged.components[kind], Table(generated.components, kind), Table(frozen.components, kind), refs))
    && HoldsSchemas(Schemas(merged), Schemas(generated), Schemas(frozen), refs)
  }

  lemma MergedHolds(generated: Document, frozen: Document)
    requires Shaped(Schemas(generated)) && SCHEMAS in frozen.components && !Collides(generated, frozen)
    ensures Contents(Merged(generated, frozen), generated, frozen)
  {
    var shared := Shared(generated, frozen);
    forall n | n in shared ensures Legacy(n) in Schemas(generated) ==> Legacy(n) in shared {
      assert !Blocked(generated, shared, n);
    }
    OverlayHolds(generated, frozen, shared, RefNames(shared));
  }

  lemma OverlayHolds(generated: Document, frozen: Document, shared: set<string>, refs: map<string, string>)
    requires Shaped(Schemas(generated)) && SCHEMAS in frozen.components && shared == Shared(generated, frozen)
    requires forall n | n in shared && Legacy(n) in Schemas(generated) :: Legacy(n) in shared
    ensures ContentsBy(Overlay(Stage(generated, refs, shared), frozen), generated, frozen, refs)
  {
    var merged := Overlay(Stage(generated, refs, shared), frozen);
    RenamedHolds(generated.rest, map[], refs);
    RenamedHolds(generated.paths, frozen.paths, refs);
    assert merged.rest == RenameFields(generated.rest, refs) + map[];
    var moved := Moved(RenameFields(Schemas(generated), refs), shared);
    KindsHold(generated.components, frozen.components, moved, refs);
    assert Schemas(merged) == moved + Schemas(frozen);
    SchemasHold(Schemas(generated), Schemas(frozen), refs);
  }

  lemma KindsHold(
      generated: map<string, map<string, Json>>, frozen: map<string, map<string, Json>>, moved: map<string, Json>,
      refs: map<string, string>)
    requires SCHEMAS in frozen
    ensures
      var merged := OverlayKinds(RenameKinds(generated, refs)[SCHEMAS := moved], frozen);
      && merged.Keys == generated.Keys + frozen.Keys
      && (forall kind | kind in merged && kind != "schemas" ::
            Holds(merged[kind], Table(generated, kind), Table(frozen, kind), refs))
  {
    var merged := OverlayKinds(RenameKinds(generated, refs)[SCHEMAS := moved], frozen);
    forall kind | kind in merged && kind != "schemas"
      ensures Holds(merged[kind], Table(generated, kind), Table(frozen, kind), refs)
    {
      RenamedHolds(Table(generated, kind), Table(frozen, kind), refs);
      assert kind !in generated ==> RenameFields(Table(generated, kind), refs) == map[];
      assert merged[kind] == RenameFields(Table(generated, kind), refs) + Table(frozen, kind);
    }
  }

  lemma RenamedHolds(generated: map<string, Json>, frozen: map<string, Json>, refs: map<string, string>)
    ensures Holds(RenameFields(generated, refs) + frozen, generated, frozen, refs)
  {}

  lemma SchemasHold(generated: map<string, Json>, frozen: map<string, Json>, refs: map<string, string>)
    requires Shaped(generated)
    requires forall n | n in generated && n in frozen && Legacy(n) in generated :: Legacy(n) in frozen
    ensures HoldsSchemas(Moved(RenameFields(generated, refs), generated.Keys * frozen.Keys) + frozen, generated, frozen, refs)
  {
    var shared := generated.Keys * frozen.Keys;
    var moved := Moved(RenameFields(generated, refs), shared);
    RenameKeepsShape(generated, refs);
    forall n ensures Legacy(n)[6..] == n {}
    forall k ensures k in moved <==>
        (k in generated && k !in frozen) || exists n :: n in generated && n in frozen && k == Legacy(n)
    {
      assert k in moved && k !in generated.Keys - shared ==> k == Legacy(k[6..]);
    }
  }

  /** The name is refused: its legacy name is generated and was not renamed away before. */
  ghost predicate Refused(generated: Document, frozen: Document, n: string) {
    var before, contract := Schemas(generated), Schemas(frozen);
    && n in before && n in contract
    && Legacy(n) in before
    && (Legacy(n) in contract ==> !StringBefore(Legacy(n), n))
  }

  lemma RefusedIsBlocked(generated: Document, frozen: Document, n: string)
    ensures Refused(generated, frozen, n) <==>
      n in Shared(generated, frozen) && Blocked(generated, Shared(generated, frozen), n)
  {
    StringLessIff(Legacy(n), n);
  }

  lemma NoneRefused(generated: Document, frozen: Document)
    requires !Collides(generated, frozen)
    ensures forall n :: !Refused(generated, frozen, n)
  {
    forall n ensures !Refused(generated, frozen, n) {
      RefusedIsBlocked(generated, frozen, n);
    }
  }

  /** The error names the first of the refused names. */
  ghost predicate FirstRefused(generated: Document, frozen: Document, e: MergeError) {
    exists n :: Refused(generated, frozen, n) && e == LegacyCollision("Legacy" + n)
      && forall m | Refused(generated, frozen, m) :: m == n || StringBefore(n, m)
  }

  lemma BlockedIsFirst(generated: Document, frozen: Document, remaining: set<string>, d: Document, name: string)
    requires Between(generated, Shared(generated, frozen), remaining, d)
    requires name in remaining && forall m | m in remaining :: StringLe(name, m)
    requires Blocked(generated, Shared(generated, frozen), name)
    ensures FirstRefused(generated, frozen, LegacyCollision(Legacy(name)))
  {
    RefusedIsBlocked(generated, frozen, name);
    forall m | Refused(generated, frozen, m) ensures m == name || StringBefore(name, m) {
      RefusedIsBlocked(generated, frozen, m);
      assert m in remaining;
      StringLessIff(name, m);
    }
  }

  class OpenApi {
    const generated: Document
    var published: Option<Document>

    constructor (generated: Document)
      ensures this.generated == generated && published == None
    {
      this.generated := generated;
      published := None;
    }

    /** The renaming loop and the overlay. Its result is the simultaneous renaming of the
        whole generated document, overlaid; a second call answers from the first. */
    method Authoritative(frozen: Document) returns (r: Result<Document, MergeError>)
      requires Shaped(Schemas(generated)) && SCHEMAS in frozen.components
      modifies this
      ensures old(published).Some? ==> r == Ok(old(published).value) && published == old(published)
      ensures old(published).None? ==>
                if exists n :: Refused(generated, frozen, n) then
                  r.Err? && published == None && FirstRefused(generated, frozen, r.error)
                else
                  && r == Ok(Merged(generated, frozen)) && published == Some(r.value)
                  && Contents(r.value, generated, frozen)
    {
      if published.Some? {
        return Ok(published.value);
      }
      var d := generated.(components :=
        if SCHEMAS in generated.components then generated.components
        else generated.components[SCHEMAS := map[]]);
      var shared := Shared(generated, frozen);
      var remaining := shared;
      FirstTurn(generated, shared);
      while remaining != {}
        invariant published == None
        invariant Between(generated, shared, remaining, d)
      {
        LeastExists(remaining);
        var name :| name in remaining && forall m | m in remaining :: StringLe(name, m);
        NextCheck(generated, shared, remaining, d, name);
        if Legacy(name) in Schemas(d) {
          assert name in shared && Blocked(generated, shared, name);
          BlockedIsFirst(generated, frozen, remaining, d, name);
          return Err(LegacyCollision(Legacy(name)));
        }
        NextTurn(generated, shared, remaining, d, name);
        d := d.(components := d.components[SCHEMAS := Popped(Schemas(d), name)]);
        d := RewriteDocument(d, Ref(name), Ref(Legacy(name)));
        remaining := remaining - {name};
      }
      LastTurn(generated, frozen, d);
      NoneRefused(generated, frozen);
      MergedHolds(generated, frozen);
      d := Overlay(d, frozen);
      published := Some(d);
      return Ok(d);
    }
  }

  lemma {:induction false} RenamedNothing(d: Document)
    ensures Renamed(d, {}) == d.(components := if SCHEMAS in d.components then d.components
                                               else d.components[SCHEMAS := map[]])
  {
    assert RefNames({}) == map[];
    StageNothing(d);
  }

  lemma StageNothing(d: Document)
    ensures Stage(d, map[], {}) == d.(components := if SCHEMAS in d.components then d.components
                                                    else d.components[SCHEMAS := map[]])
  {
    RenameNothing(Object(d.rest));
    RenameNothing(Object(d.paths));
    RenameNothing(Object(Schemas(d)));
    RenameKindsNothing(d.components);
    assert Moved(Schemas(d), {}) == Schemas(d);
    assert SCHEMAS in d.components ==> d.components[SCHEMAS := Schemas(d)] == d.components;
  }

  lemma RenameKindsNothing(components: map<string, map<string, Json>>)
    ensures RenameKinds(components, map[]) == components
  {
    forall kind | kind in components ensures RenameFields(components[kind], map[]) == components[kind] {
      RenameNothing(Object(components[kind]));
    }
  }
}
