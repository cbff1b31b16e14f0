/** What the merged description means: every reference of the generated and of the frozen
    side, followed to any depth, still leads to the schema it led to before. */
module OpenApiMeaning {
  import opened Wrappers
  import opened Ordering
  import opened OpenApiMerge
  import JsonText

  // ---------------------------------------------------------------- where a reference leads

  function Head(s: string): (r: string)
    ensures |r| <= |s|
  {
    if s == "" || s[0] == '/' then "" else [s[0]] + Head(s[1..])
  }

  /** The escapes of section 3 of RFC 6901. */
  function Unescape(s: string): string {
    if "~1" <= s then "/" + Unescape(s[2..])
    else if "~0" <= s then "~" + Unescape(s[2..])
    else if s == "" then ""
    else [s[0]] + Unescape(s[1..])
  }

  /** The tokens of a JSON pointer, each after its own slash. */
  function Tokens(s: string): seq<string>
    decreases |s|
  {
    if s == "" then [] else [Unescape(Head(s[1..]))] + Tokens(s[1 + |Head(s[1..])|..])
  }

  function Suffix(text: string): string {
    if |text| >= |PREFIX| then text[|PREFIX|..] else ""
  }

  /** The schema a reference enters. */
  function NameOf(text: string): string {
    Head(Suffix(text))
  }

  /** The way it takes inside that schema; nothing for a reference to a whole schema. */
  function PathOf(text: string): seq<string> {
    Tokens(Suffix(text)[|NameOf(text)|..])
  }

  /** Component names contain no slash (section 4.8.7 of OpenAPI 3.1.0). */
  predicate Plain(name: string) {
    '/' !in name
  }

  ghost predicate PlainNames(names: set<string>) {
    forall n | n in names :: Plain(n)
  }

  function Decimal(s: string): Option<nat> {
    if s == "" then Some(0)
    else
      var front, last := Decimal(s[..|s| - 1]), s[|s| - 1];
      if front.None? || !('0' <= last <= '9') then None else Some(front.value * 10 + (last - '0') as nat)
  }

  function Index(token: string): Option<nat> {
    if token == "" || ("0" <= token && |token| > 1) then None else Decimal(token)
  }

  /** What stands at a path; a bare string is no schema. */
  function At(v: Json, path: seq<string>): Option<Json>
    decreases |path|
  {
    if path == [] then if v.Text? then None else Some(v)
    else
      match v
      case Object(fields) => if path[0] in fields then At(fields[path[0]], path[1..]) else None
      case Array(items) =>
        var i := Index(path[0]);
        if i.Some? && i.value < |items| then At(items[i.value], path[1..]) else None
      case _ => None
  }

  function TargetOf(schemas: map<string, Json>, text: string): Option<Json> {
    if PREFIX <= text && NameOf(text) in schemas then At(schemas[NameOf(text)], PathOf(text)) else None
  }

  // ---------------------------------------------------------------- pointers as they are written

  /** A token as section 3 of RFC 6901 writes it. */
  function EscapeToken(s: string): (r: string)
    ensures '/' !in r
  {
    if s == "" then ""
    else (if s[0] == '~' then "~0" else if s[0] == '/' then "~1" else [s[0]]) + EscapeToken(s[1..])
  }

  function Pointer(path: seq<string>): string {
    if path == [] then "" else "/" + EscapeToken(path[0]) + Pointer(path[1..])
  }

  lemma {:induction false} UnescapeInverts(s: string)
    ensures Unescape(EscapeToken(s)) == s
  {
    if s != "" {
      UnescapeInverts(s[1..]);
      var r, rest := EscapeToken(s), EscapeToken(s[1..]);
      assert s == [s[0]] + s[1..];
      if s[0] == '~' {
        StartsWith("~0", rest);
        assert r[1] == '0' && !("~1" <= r);
        assert Unescape(r) == "~" + Unescape(rest);
      } else if s[0] == '/' {
        StartsWith("~1", rest);
        assert Unescape(r) == "/" + Unescape(rest);
      } else {
        StartsWith([s[0]], rest);
        assert r[0] == s[0] && !("~1" <= r) && !("~0" <= r);
      }
    }
  }

  lemma StartsWith(start: string, rest: string)
    ensures start <= start + rest && (start + rest)[|start|..] == rest
  {}

  lemma {:induction false} HeadEndsAtSlash(token: string, rest: string)
    requires '/' !in token && (rest == "" || rest[0] == '/')
    ensures Head(token + rest) == token
  {
    if token == "" {
      assert token + rest == rest;
    } else {
      assert (token + rest)[0] == token[0] && (token + rest)[1..] == token[1..] + rest;
      assert token[0] in token && forall c | c in token[1..] :: c in token;
      HeadEndsAtSlash(token[1..], rest);
      assert token == [token[0]] + token[1..];
    }
  }

  /** Every path is read back from the pointer it is written as. */
  lemma {:induction false} PointersAreRead(path: seq<string>)
    ensures Tokens(Pointer(path)) == path
  {
    if path != [] {
      PointersAreRead(path[1..]);
      UnescapeInverts(path[0]);
      FirstToken(EscapeToken(path[0]), Pointer(path[1..]));
    }
  }

  lemma FirstToken(token: string, rest: string)
    requires '/' !in token && (rest == "" || rest[0] == '/')
    ensures Tokens("/" + token + rest) == [Unescape(token)] + Tokens(rest)
  {
    var s := "/" + token + rest;
    assert s[1..] == token + rest;
    HeadEndsAtSlash(token, rest);
    assert s[1 + |token|..] == rest;
  }

  lemma {:induction false} DigitsAreRead(n: nat)
    ensures Decimal(JsonText.Digits(n)) == Some(n)
    ensures JsonText.Digits(n)[0] == '0' <==> n == 0
    ensures n == 0 ==> |JsonText.Digits(n)| == 1
  {
    var s := JsonText.Digits(n);
    if n >= 10 {
      DigitsAreRead(n / 10);
      assert s[..|s| - 1] == JsonText.Digits(n / 10);
    } else {
      assert s[..0] == "";
    }
  }

  lemma {:induction false} ReadAreDigits(s: string)
    requires s != "" && Decimal(s).Some? && (s[0] == '0' ==> |s| == 1)
    ensures s == JsonText.Digits(Decimal(s).value)
    decreases |s|
  {
    var front, d := s[..|s| - 1], (s[|s| - 1] - '0') as nat;
    assert s == front + [s[|s| - 1]];
    if front != "" {
      ReadAreDigits(front);
      DigitsAreRead(Decimal(front).value);
      var m := Decimal(front).value;
      assert front[0] == s[0] != '0';
      assert (m * 10 + d) / 10 == m && (m * 10 + d) % 10 == d;
    }
  }

  /** An array index is written in decimal without leading zeros (section 4 of RFC 6901). */
  lemma IndexIff(token: string, n: nat)
    ensures Index(token) == Some(n) <==> token == JsonText.Digits(n)
  {
    DigitsAreRead(n);
    if Index(token) == Some(n) {
      ReadAreDigits(token);
    }
  }

  // ---------------------------------------------------------------- meaning

  /** A fragment with its references followed. Cut marks where following stopped. */
  datatype Meaning =
    | Cut
    | Leaf(value: Json)
    | Target(schema: Meaning)
    | Items(items: seq<Meaning>)
    | Fields(fields: map<string, Meaning>)

  function Unfold(schemas: map<string, Json>, v: Json, depth: nat): Meaning
    decreases depth, v
  {
    match v
    case Object(fields) =>
      Fields(map k | k in fields ::
        if k == REF && fields[k].Text? && TargetOf(schemas, fields[k].text).Some? then
          if depth == 0 then Cut
          else Target(Unfold(schemas, TargetOf(schemas, fields[k].text).value, depth - 1))
        else Unfold(schemas, fields[k], depth))
    case Array(items) =>
      Items(seq(|items|, i requires 0 <= i < |items| => Unfold(schemas, items[i], depth)))
    case _ => Leaf(v)
  }

  /** Every reference of a fragment satisfies `good`. */
  ghost predicate References(v: Json, good: string -> bool) {
    match v
    case Object(fields) =>
      forall k | k in fields ::
        if k == REF && fields[k].Text? then good(fields[k].text) else References(fields[k], good)
    case Array(items) => forall i | 0 <= i < |items| :: References(items[i], good)
    case _ => true
  }

  /** A reference into a schema that was there before, or into none the merge gives. */
  predicate EntersKnown(before: map<string, Json>, after: map<string, Json>, text: string) {
    PREFIX <= text ==> NameOf(text) in before || NameOf(text) !in after
  }

  function Unaffected(before: map<string, Json>, after: map<string, Json>): string -> bool {
    text => EntersKnown(before, after, text)
  }

  /** A reference that enters a shared schema and goes on inside it. */
  predicate PointsInside(text: string, names: set<string>) {
    PREFIX <= text && NameOf(text) in names && PathOf(text) != []
  }

  function Safe(before: map<string, Json>, after: map<string, Json>, names: set<string>): string -> bool {
    text => EntersKnown(before, after, text) && !PointsInside(text, names)
  }

  ghost predicate Closed(schemas: map<string, Json>, good: string -> bool) {
    forall n | n in schemas :: References(schemas[n], good)
  }

  /** The merged schema table keeps each schema of the generated one, renamed, at its new name. */
  ghost predicate Keeps(before: map<string, Json>, after: map<string, Json>, names: set<string>) {
    forall n | n in before ::
      NewName(names, n) in after && after[NewName(names, n)] == Rename(before[n], RefNames(names))
  }

  // ---------------------------------------------------------------- references and their parts

  lemma {:induction false} HeadOfPlain(s: string)
    requires Plain(s)
    ensures Head(s) == s
  {
    if s != "" {
      assert s[0] in s && forall c | c in s[1..] :: c in s;
      HeadOfPlain(s[1..]);
    }
  }

  lemma PartsOfRef(n: string)
    requires Plain(n)
    ensures PREFIX <= Ref(n) && NameOf(Ref(n)) == n && PathOf(Ref(n)) == []
  {
    assert Suffix(Ref(n)) == n;
    HeadOfPlain(n);
  }

  lemma {:induction false} HeadIsFirst(s: string)
    ensures Head(s) <= s
  {
    if s != "" && s[0] != '/' {
      HeadIsFirst(s[1..]);
    }
  }

  lemma RefOfParts(text: string)
    requires PREFIX <= text && PathOf(text) == []
    ensures text == Ref(NameOf(text))
  {
    HeadIsFirst(Suffix(text));
  }

  function RenamedText(refs: map<string, string>, text: string): string {
    if text in refs then refs[text] else text
  }

  /** Only whole references are renamed. */
  lemma RenamedRefs(names: set<string>, text: string)
    requires PlainNames(names)
    ensures text in RefNames(names) <==> PREFIX <= text && NameOf(text) in names && PathOf(text) == []
    ensures text in RefNames(names) ==> RenamedText(RefNames(names), text) == Ref(Legacy(NameOf(text)))
  {
    if text in RefNames(names) {
      var n :| n in names && text == Ref(n);
      PartsOfRef(n);
    }
    if PREFIX <= text && PathOf(text) == [] {
      RefOfParts(text);
    }
  }

  lemma RenameKeepsKind(v: Json, refs: map<string, string>)
    ensures Rename(v, refs).Text? <==> v.Text?
  {}

  function RenamedTarget(refs: map<string, string>, v: Option<Json>): Option<Json> {
    match v case None => None case Some(t) => Some(Rename(t, refs))
  }

  /** Renaming references moves nothing inside a schema. */
  lemma {:induction false} RenameAt(v: Json, refs: map<string, string>, path: seq<string>)
    ensures At(Rename(v, refs), path) == RenamedTarget(refs, At(v, path))
    decreases |path|
  {
    RenameKeepsKind(v, refs);
    if path != [] {
      match v
      case Object(fields) =>
        if path[0] in fields {
          var field, renamed := fields[path[0]], Rename(v, refs).fields[path[0]];
          RenameAt(field, refs, path[1..]);
          RenameKeepsKind(field, refs);
          if field.Text? {
            assert At(field, path[1..]) == None && At(renamed, path[1..]) == None;
          } else {
            assert renamed == Rename(field, refs);
          }
        }
      case Array(items) =>
        var i := Index(path[0]);
        if i.Some? && i.value < |items| {
          RenameAt(items[i.value], refs, path[1..]);
          assert Rename(v, refs).items[i.value] == Rename(items[i.value], refs);
        }
      case _ =>
    }
  }

  lemma {:induction false} ReferencesAt(v: Json, good: string -> bool, path: seq<string>)
    requires References(v, good) && At(v, path).Some?
    ensures References(At(v, path).value, good)
    decreases |path|
  {
    if path != [] {
      match v
      case Object(fields) =>
        assert !fields[path[0]].Text?;
        ReferencesAt(fields[path[0]], good, path[1..]);
      case Array(items) => ReferencesAt(items[Index(path[0]).value], good, path[1..]);
    }
  }

  /** A reference string, renamed or not, leads in `after` where it led in `before`, up to the
      renaming. */
  ghost predicate Follows(before: map<string, Json>, after: map<string, Json>, refs: map<string, string>, text: string) {
    var text' := RenamedText(refs, text);
    && TargetOf(after, text') == RenamedTarget(refs, TargetOf(before, text))
    && (TargetOf(before, text).None? ==> text' == text)
  }

  lemma UnfoldText(schemas: map<string, Json>, text: string, depth: nat)
    ensures Unfold(schemas, Text(text), depth) == Leaf(Text(text))
  {}

  lemma ReferencePreserved(
      before: map<string, Json>, after: map<string, Json>, names: set<string>, text: string)
    requires names <= before.Keys && PlainNames(before.Keys) && Shaped(before) && Keeps(before, after, names)
    requires Safe(before, after, names)(text)
    ensures Follows(before, after, RefNames(names), text)
  {
    RenamedRefs(names, text);
    var n := NameOf(text);
    if !(PREFIX <= text && n in before) {
      assert text !in RefNames(names) && TargetOf(before, text) == None && TargetOf(after, text) == None;
    } else if n in names {
      WholeReferencePreserved(before, after, names, n);
      RefOfParts(text);
    } else {
      RenameAt(before[n], RefNames(names), PathOf(text));
    }
  }

  lemma WholeReferencePreserved(before: map<string, Json>, after: map<string, Json>, names: set<string>, n: string)
    requires n in names && n in before && Plain(n) && Shaped(before) && Keeps(before, after, names)
    requires RenamedText(RefNames(names), Ref(n)) == Ref(Legacy(n))
    ensures Follows(before, after, RefNames(names), Ref(n))
  {
    assert Plain(Legacy(n));
    PartsOfRef(n);
    PartsOfRef(Legacy(n));
    RenameAt(before[n], RefNames(names), []);
    assert after[Legacy(n)] == Rename(before[n], RefNames(names));
  }

  /** Every safe reference is followed. */
  ghost predicate FollowsAll(
      before: map<string, Json>, after: map<string, Json>, refs: map<string, string>, good: string -> bool)
  {
    forall text | good(text) :: Follows(before, after, refs, text)
  }

  /** Meaning preservation: a renamed fragment means in the merged table, to every depth,
      what the original meant in its own. */
  lemma {:induction false} RenamingPreservesMeaning(
      before: map<string, Json>, after: map<string, Json>, refs: map<string, string>, good: string -> bool,
      v: Json, depth: nat)
    requires FollowsAll(before, after, refs, good)
    requires Closed(before, good) && References(v, good)
    ensures Unfold(after, Rename(v, refs), depth) == Unfold(before, v, depth)
    decreases depth, v, 1
  {
    var left, right := Unfold(after, Rename(v, refs), depth), Unfold(before, v, depth);
    match v
    case Object(fields) =>
      forall k | k in fields ensures left.fields[k] == right.fields[k] {
        FieldMeansTheSame(before, after, refs, good, v, k, depth);
      }
      assert left.fields == right.fields;
    case Array(items) =>
      forall i | 0 <= i < |items| ensures left.items[i] == right.items[i] {
        RenamingPreservesMeaning(before, after, refs, good, items[i], depth);
      }
      assert left.items == right.items;
    case _ =>
  }

  lemma {:induction false} FieldMeansTheSame(
      before: map<string, Json>, after: map<string, Json>, refs: map<string, string>, good: string -> bool,
      v: Json, k: string, depth: nat)
    requires FollowsAll(before, after, refs, good)
    requires Closed(before, good) && References(v, good)
    requires v.Object? && k in v.fields
    ensures Unfold(after, Rename(v, refs), depth).fields[k] == Unfold(before, v, depth).fields[k]
    decreases depth, v, 0
  {
    var field := v.fields[k];
    FieldIsGood(v, good, k);
    if k == REF && field.Text? {
      var target := TargetOf(before, field.text);
      if target.Some? && depth > 0 {
        TargetIsGood(before, good, field.text);
        RenamingPreservesMeaning(before, after, refs, good, target.value, depth - 1);
      }
      ReferenceUnfolds(before, after, refs, v.fields, depth);
    } else {
      RenamingPreservesMeaning(before, after, refs, good, field, depth);
      FieldUnfolds(before, after, refs, v.fields, k, depth);
    }
  }

  lemma FieldIsGood(v: Json, good: string -> bool, k: string)
    requires v.Object? && References(v, good) && k in v.fields
    ensures if k == REF && v.fields[k].Text? then good(v.fields[k].text) else References(v.fields[k], good)
  {}

  lemma TargetIsGood(schemas: map<string, Json>, good: string -> bool, text: string)
    requires Closed(schemas, good) && TargetOf(schemas, text).Some?
    ensures References(TargetOf(schemas, text).value, good)
  {
    ReferencesAt(schemas[NameOf(text)], good, PathOf(text));
  }

  lemma FieldUnfolds(
      before: map<string, Json>, after: map<string, Json>, refs: map<string, string>,
      fields: map<string, Json>, k: string, depth: nat)
    requires k in fields && !(k == REF && fields[k].Text?)
    requires Unfold(after, Rename(fields[k], refs), depth) == Unfold(before, fields[k], depth)
    ensures Unfold(after, Rename(Object(fields), refs), depth).fields[k] == Unfold(before, Object(fields), depth).fields[k]
  {
    RenameKeepsKind(fields[k], refs);
    assert Rename(Object(fields), refs).fields[k] == Rename(fields[k], refs);
  }

  /** A reference that is followed unfolds alike, given that its target does. */
  lemma ReferenceUnfolds(
      before: map<string, Json>, after: map<string, Json>, refs: map<string, string>,
      fields: map<string, Json>, depth: nat)
    requires REF in fields && fields[REF].Text? && Follows(before, after, refs, fields[REF].text)
    requires TargetOf(before, fields[REF].text).Some? && depth > 0 ==>
      var target := TargetOf(before, fields[REF].text).value;
      Unfold(after, Rename(target, refs), depth - 1) == Unfold(before, target, depth - 1)
    ensures Unfold(after, Rename(Object(fields), refs), depth).fields[REF] == Unfold(before, Object(fields), depth).fields[REF]
  {
    var text := fields[REF].text;
    assert Rename(Object(fields), refs).fields[REF] == Text(RenamedText(refs, text));
    UnfoldText(before, text, depth);
    UnfoldText(after, text, depth);
  }

  /** The other direction of the overlay: a table that extends another means the same for
      fragments that do not use the names it adds. */
  lemma ExtensionPreservesMeaning(before: map<string, Json>, after: map<string, Json>, v: Json, depth: nat)
    requires forall n | n in before :: n in after && after[n] == before[n]
    requires Closed(before, Unaffected(before, after)) && References(v, Unaffected(before, after))
    ensures Unfold(after, v, depth) == Unfold(before, v, depth)
  {
    forall text | Unaffected(before, after)(text) ensures Follows(before, after, map[], text) {
      assert TargetOf(after, text) == TargetOf(before, text);
      if TargetOf(before, text).Some? {
        RenameNothing(TargetOf(before, text).value);
      }
    }
    RenamingPreservesMeaning(before, after, map[], Unaffected(before, after), v, depth);
    RenameNothing(v);
  }

  // ---------------------------------------------------------------- whole documents

  /** No frozen schema takes the legacy name of a shared one. */
  predicate LegacyNamesFree(generatedNames: set<string>, frozenNames: set<string>) {
    forall n | n in generatedNames * frozenNames :: Legacy(n) !in frozenNames
  }

  predicate NoCollision(generatedNames: set<string>, frozenNames: set<string>) {
    forall n | n in generatedNames * frozenNames :: Legacy(n) !in generatedNames
  }

  /** The merged schema table, from the two tables alone. */
  function MergedSchemas(generated: map<string, Json>, frozen: map<string, Json>): map<string, Json> {
    var shared := generated.Keys * frozen.Keys;
    Moved(RenameFields(generated, RefNames(shared)), shared) + frozen
  }

  lemma MergedDocumentSchemas(generated: Document, frozen: Document)
    requires SCHEMAS in frozen.components
    ensures Schemas(Merged(generated, frozen)) == MergedSchemas(Schemas(generated), Schemas(frozen))
  {}

  lemma {:induction false} MergeKeepsGenerated(generated: map<string, Json>, frozen: map<string, Json>)
    requires Shaped(generated)
    requires NoCollision(generated.Keys, frozen.Keys) && LegacyNamesFree(generated.Keys, frozen.Keys)
    ensures Keeps(generated, MergedSchemas(generated, frozen), generated.Keys * frozen.Keys)
  {
    var names := generated.Keys * frozen.Keys;
    var refs := RefNames(names);
    var merged := MergedSchemas(generated, frozen);
    RenameKeepsShape(generated, refs);
    forall n | n in generated
      ensures NewName(names, n) in merged && merged[NewName(names, n)] == Rename(generated[n], refs)
    {
      assert Legacy(n)[6..] == n;
    }
  }

  /** Without a collision the merge fails only on documents whose names already overlap the
      legacy names, so both name conditions together rule the error out. */
  lemma NoCollisionMeansNoError(generated: Document, frozen: Document)
    requires LegacyNamesFree(Schemas(generated).Keys, Schemas(frozen).Keys)
    ensures Collides(generated, frozen) <==> !NoCollision(Schemas(generated).Keys, Schemas(frozen).Keys)
  {
    var shared := Shared(generated, frozen);
    forall n | n in shared ensures Blocked(generated, shared, n) <==> Legacy(n) in Schemas(generated) {}
  }

  /** Entries of a generated dictionary that the contract leaves in place and whose references
      are `good` mean in the merged description what they meant. */
  ghost predicate Means(
      merged: map<string, Json>, generated: map<string, Json>, frozen: map<string, Json>,
      after: map<string, Json>, before: map<string, Json>, good: string -> bool, depth: nat)
  {
    forall k | k in generated && k !in frozen && !(k == REF && generated[k].Text?) && References(generated[k], good) ::
      k in merged && Unfold(after, merged[k], depth) == Unfold(before, generated[k], depth)
  }

  /** The main theorem. After a successful merge whose frozen names leave the legacy names
      alone: everything outside paths and components, every generated path and component of
      another kind that survives, and every generated schema under its new name, means what it
      meant, provided none of them refers to a part of a shared schema; every frozen path and
      component is there verbatim and means what it means in the frozen contract by itself. */
  lemma {:induction false} MergePreservesMeaning(generated: Document, frozen: Document, depth: nat)
    requires SCHEMAS in frozen.components && Shaped(Schemas(generated)) && PlainNames(Schemas(generated).Keys)
    requires !Collides(generated, frozen)
    requires LegacyNamesFree(Schemas(generated).Keys, Schemas(frozen).Keys)
    requires var after := Schemas(Merged(generated, frozen));
             && Closed(Schemas(generated), Safe(Schemas(generated), after, Shared(generated, frozen)))
             && Closed(Schemas(frozen), Unaffected(Schemas(frozen), after))
    ensures var merged, names := Merged(generated, frozen), Shared(generated, frozen);
            var after, before, contract := Schemas(merged), Schemas(generated), Schemas(frozen);
            && (forall n | n in before :: NewName(names, n) in after
                  && Unfold(after, after[NewName(names, n)], depth) == Unfold(before, before[n], depth))
            && Means(merged.rest, generated.rest, map[], after, before, Safe(before, after, names), depth)
            && Means(merged.paths, generated.paths, frozen.paths, after, before, Safe(before, after, names), depth)
            && (forall kind | kind in generated.components && kind != "schemas" ::
                  kind in merged.components
                  && Means(merged.components[kind], generated.components[kind], Table(frozen.components, kind),
                           after, before, Safe(before, after, names), depth))
            && (forall kind, n | kind in frozen.components && n in frozen.components[kind] ::
                  kind in merged.components && n in merged.components[kind]
                  && merged.components[kind][n] == frozen.components[kind][n])
            && (forall p | p in frozen.paths :: p in merged.paths && merged.paths[p] == frozen.paths[p])
            && (forall v | References(v, Unaffected(contract, after)) ::
                  Unfold(after, v, depth) == Unfold(contract, v, depth))
  {
    var merged, names := Merged(generated, frozen), Shared(generated, frozen);
    var after, before, contract := Schemas(merged), Schemas(generated), Schemas(frozen);
    NoCollisionMeansNoError(generated, frozen);
    MergedDocumentSchemas(generated, frozen);
    MergeKeepsGenerated(before, contract);
    SafeIsFollowed(before, after, names);
    forall n | n in before
      ensures NewName(names, n) in after
      ensures Unfold(after, after[NewName(names, n)], depth) == Unfold(before, before[n], depth)
    {
      RenamingPreservesMeaning(before, after, RefNames(names), Safe(before, after, names), before[n], depth);
    }
    MergedHolds(generated, frozen);
    EntriesKeepTheirMeaning(merged, generated, frozen, after, RefNames(names), Safe(before, after, names), depth);
    forall v | References(v, Unaffected(contract, after))
      ensures Unfold(after, v, depth) == Unfold(contract, v, depth)
    {
      ExtensionPreservesMeaning(contract, after, v, depth);
    }
  }

  lemma EntriesKeepTheirMeaning(
      merged: Document, generated: Document, frozen: Document, after: map<string, Json>, refs: map<string, string>,
      good: string -> bool, depth: nat)
    requires ContentsBy(merged, generated, frozen, refs)
    requires FollowsAll(Schemas(generated), after, refs, good) && Closed(Schemas(generated), good)
    ensures Means(merged.rest, generated.rest, map[], after, Schemas(generated), good, depth)
    ensures Means(merged.paths, generated.paths, frozen.paths, after, Schemas(generated), good, depth)
    ensures forall kind | kind in generated.components && kind != "schemas" ::
              kind in merged.components
              && Means(merged.components[kind], generated.components[kind], Table(frozen.components, kind),
                       after, Schemas(generated), good, depth)
  {
    var before := Schemas(generated);
    HeldKeepsMeaning(merged.rest, generated.rest, map[], after, before, refs, good, depth);
    HeldKeepsMeaning(merged.paths, generated.paths, frozen.paths, after, before, refs, good, depth);
    forall kind | kind in generated.components && kind != "schemas"
      ensures kind in merged.components
      ensures Means(merged.components[kind], generated.components[kind], Table(frozen.components, kind),
                    after, before, good, depth)
    {
      assert kind in merged.components;
      HeldKeepsMeaning(merged.components[kind], generated.components[kind], Table(frozen.components, kind),
                       after, before, refs, good, depth);
    }
  }

  lemma HeldKeepsMeaning(
      merged: map<string, Json>, generated: map<string, Json>, frozen: map<string, Json>,
      after: map<string, Json>, before: map<string, Json>, refs: map<string, string>, good: string -> bool, depth: nat)
    requires Holds(merged, generated, frozen, refs)
    requires FollowsAll(before, after, refs, good) && Closed(before, good)
    ensures Means(merged, generated, frozen, after, before, good, depth)
  {
    forall k | k in generated && k !in frozen && !(k == REF && generated[k].Text?) && References(generated[k], good)
      ensures Unfold(after, merged[k], depth) == Unfold(before, generated[k], depth)
    {
      RenamingPreservesMeaning(before, after, refs, good, generated[k], depth);
    }
  }

  lemma SafeIsFollowed(before: map<string, Json>, after: map<string, Json>, names: set<string>)
    requires names <= before.Keys && PlainNames(before.Keys) && Shaped(before) && Keeps(before, after, names)
    ensures FollowsAll(before, after, RefNames(names), Safe(before, after, names))
  {
    forall text | Safe(before, after, names)(text) ensures Follows(before, after, RefNames(names), text) {
      ReferencePreserved(before, after, names, text);
    }
  }

  // ---------------------------------------------------------------- the conditions are exact

  /** The merge is refused, as far as the names decide it. */
  predicate Refuses(generatedNames: set<string>, frozenNames: set<string>) {
    var shared := generatedNames * frozenNames;
    exists n | n in shared :: Legacy(n) in generatedNames && !(Legacy(n) in shared && StringLess(Legacy(n), n))
  }

  lemma RefusesIsCollides(generated: Document, frozen: Document)
    ensures Collides(generated, frozen) <==> Refuses(Schemas(generated).Keys, Schemas(frozen).Keys)
  {
    var shared := Shared(generated, frozen);
    forall n | n in shared
      ensures Blocked(generated, shared, n)
         <==> (Legacy(n) in Schemas(generated).Keys && !(Legacy(n) in shared && StringLess(Legacy(n), n)))
    {}
  }

  /** A reference means in the merged table what it meant in the generated one. */
  ghost predicate SameMeaning(generated: map<string, Json>, frozen: map<string, Json>, text: string, depth: nat) {
    var v := Object(map[REF := Text(text)]);
    Unfold(MergedSchemas(generated, frozen), Rename(v, RefNames(generated.Keys * frozen.Keys)), depth)
    == Unfold(generated, v, depth)
  }

  /** References to generated schemas, whole ones where the schema is shared. */
  function Whole(generatedNames: set<string>, frozenNames: set<string>): string -> bool {
    text => PREFIX <= text ==> NameOf(text) in generatedNames && !PointsInside(text, generatedNames * frozenNames)
  }

  /** Tables with these names, the generated one with such references only. */
  ghost predicate Tables(generated: map<string, Json>, frozen: map<string, Json>, generatedNames: set<string>, frozenNames: set<string>) {
    && generated.Keys == generatedNames
    && frozen.Keys == frozenNames
    && Shaped(generated)
    && Closed(generated, Whole(generatedNames, frozenNames))
  }

  lemma {:induction false} ReferencesWeaken(v: Json, p: string -> bool, q: string -> bool)
    requires References(v, p) && forall n | p(n) :: q(n)
    ensures References(v, q)
  {
    match v
    case Object(fields) =>
      forall k | k in fields && !(k == REF && fields[k].Text?) ensures References(fields[k], q) {
        ReferencesWeaken(fields[k], p, q);
      }
    case Array(items) =>
      forall i | 0 <= i < |items| ensures References(items[i], q) {
        ReferencesWeaken(items[i], p, q);
      }
    case _ =>
  }

  lemma {:induction false} FreeNamesSuffice(generated: map<string, Json>, frozen: map<string, Json>, text: string, depth: nat)
    requires Tables(generated, frozen, generated.Keys, frozen.Keys) && PlainNames(generated.Keys)
    requires NoCollision(generated.Keys, frozen.Keys) && LegacyNamesFree(generated.Keys, frozen.Keys)
    requires PREFIX <= text && NameOf(text) in generated && !PointsInside(text, generated.Keys * frozen.Keys)
    ensures SameMeaning(generated, frozen, text, depth)
  {
    var names, after := generated.Keys * frozen.Keys, MergedSchemas(generated, frozen);
    var good := Safe(generated, after, names);
    MergeKeepsGenerated(generated, frozen);
    SafeIsFollowed(generated, after, names);
    WholeIsSafe(generated, after, generated.Keys, frozen.Keys);
    OneReference(text, good);
    RenamingPreservesMeaning(generated, after, RefNames(names), good, Object(map[REF := Text(text)]), depth);
  }

  lemma OneReference(text: string, good: string -> bool)
    requires good(text)
    ensures References(Object(map[REF := Text(text)]), good)
  {
    var v := Object(map[REF := Text(text)]);
    assert forall k | k in v.fields :: k == REF && v.fields[k] == Text(text);
  }

  lemma WholeIsSafe(
      generated: map<string, Json>, after: map<string, Json>, generatedNames: set<string>, frozenNames: set<string>)
    requires generated.Keys == generatedNames && Closed(generated, Whole(generatedNames, frozenNames))
    ensures Closed(generated, Safe(generated, after, generatedNames * frozenNames))
  {
    var whole, good := Whole(generatedNames, frozenNames), Safe(generated, after, generatedNames * frozenNames);
    forall text | whole(text) ensures good(text) {
      assert EntersKnown(generated, after, text);
    }
    forall m | m in generated ensures References(generated[m], good) {
      ReferencesWeaken(generated[m], whole, good);
    }
  }

  /** A frozen schema under a legacy name takes the reference over. */
  lemma {:induction false} TakenNameBreaks(generatedNames: set<string>, frozenNames: set<string>, n: string)
    requires n in generatedNames * frozenNames && Legacy(n) in frozenNames && Plain(n)
    ensures var generated := map k | k in generatedNames :: Object(map[]);
            var frozen := map k | k in frozenNames :: Null;
            Tables(generated, frozen, generatedNames, frozenNames) && !SameMeaning(generated, frozen, Ref(n), 1)
  {
    var generated := map k | k in generatedNames :: Object(map[]);
    var frozen := map k | k in frozenNames :: Null;
    assert generated.Keys == generatedNames && frozen.Keys == frozenNames;
    PartsOfRef(n);
    assert MergedSchemas(generated, frozen)[Legacy(n)] == Null;
    RedirectedReference(generated, MergedSchemas(generated, frozen), generatedNames * frozenNames, n);
  }

  lemma RedirectedReference(before: map<string, Json>, after: map<string, Json>, names: set<string>, n: string)
    requires n in names && Plain(n) && n in before && before[n] == Object(map[])
    requires Legacy(n) in after && after[Legacy(n)] == Null
    ensures Unfold(after, Rename(Object(map[REF := Text(Ref(n))]), RefNames(names)), 1)
         != Unfold(before, Object(map[REF := Text(Ref(n))]), 1)
  {
    PartsOfRef(n);
    assert Plain(Legacy(n));
    PartsOfRef(Legacy(n));
    RenameOfRef(names, n);
    MeaningOfRef(before, Ref(n));
    MeaningOfRef(after, Ref(Legacy(n)));
    assert Unfold(before, Object(map[]), 0).Fields? && Unfold(after, Null, 0) == Leaf(Null);
    assert Unfold(after, Object(map[REF := Text(Ref(Legacy(n)))]), 1).fields[REF] == Target(Leaf(Null));
  }

  /** A whole reference, as it is written, before and after the renaming. */
  lemma RenameOfRef(names: set<string>, n: string)
    requires n in names
    ensures Rename(Object(map[REF := Text(Ref(n))]), RefNames(names)) == Object(map[REF := Text(Ref(Legacy(n)))])
    ensures Rename(Object(map["$ref" := Text("#/components/schemas/" + n)]), RefNames(names))
         == Object(map["$ref" := Text("#/components/schemas/Legacy" + n)])
  {
    assert "#/components/schemas/Legacy" + n == "#/components/schemas/" + ("Legacy" + n);
  }

  lemma MeaningOfRef(schemas: map<string, Json>, text: string)
    requires TargetOf(schemas, text).Some?
    ensures Unfold(schemas, Object(map[REF := Text(text)]), 1)
            == Fields(map[REF := Target(Unfold(schemas, TargetOf(schemas, text).value, 0))])
  {}

  /** Objects within objects along a path. */
  function Nest(path: seq<string>): Json {
    if path == [] then Object(map[]) else Object(map[path[0] := Nest(path[1..])])
  }

  lemma {:induction false} NestLeadsToItsEnd(path: seq<string>, good: string -> bool)
    ensures At(Nest(path), path) == Some(Object(map[]))
    ensures References(Nest(path), good) && Nest(path).Object?
  {
    if path != [] {
      NestLeadsToItsEnd(path[1..], good);
    }
  }

  /** A reference to a part of a shared schema stays as it is and ends in the frozen schema,
      where that part need not be. */
  lemma {:induction false} InsideReferenceBreaks(generatedNames: set<string>, frozenNames: set<string>, text: string)
    requires PointsInside(text, generatedNames * frozenNames) && PlainNames(generatedNames)
    ensures var generated := map k | k in generatedNames :: if k == NameOf(text) then Nest(PathOf(text)) else Object(map[]);
            var frozen := map k | k in frozenNames :: Null;
            Tables(generated, frozen, generatedNames, frozenNames) && !SameMeaning(generated, frozen, text, 1)
  {
    var generated := map k | k in generatedNames :: if k == NameOf(text) then Nest(PathOf(text)) else Object(map[]);
    var frozen := map k | k in frozenNames :: Null;
    assert generated.Keys == generatedNames && frozen.Keys == frozenNames;
    var names, after := generatedNames * frozenNames, MergedSchemas(generated, frozen);
    NestsAreTables(generatedNames, frozenNames, text);
    assert after[NameOf(text)] == Null;
    NestLeadsToItsEnd(PathOf(text), Whole(generatedNames, frozenNames));
    DeadReference(generated, after, names, text);
  }

  lemma NestsAreTables(generatedNames: set<string>, frozenNames: set<string>, text: string)
    ensures var generated := map k | k in generatedNames :: if k == NameOf(text) then Nest(PathOf(text)) else Object(map[]);
            var frozen := map k | k in frozenNames :: Null;
            Tables(generated, frozen, generatedNames, frozenNames)
  {
    var generated := map k | k in generatedNames :: if k == NameOf(text) then Nest(PathOf(text)) else Object(map[]);
    var frozen := map k | k in frozenNames :: Null;
    assert generated.Keys == generatedNames && frozen.Keys == frozenNames;
    NestLeadsToItsEnd(PathOf(text), Whole(generatedNames, frozenNames));
  }

  /** A reference that is not renamed and leads nowhere any more. */
  lemma DeadReference(before: map<string, Json>, after: map<string, Json>, names: set<string>, text: string)
    requires PointsInside(text, names) && PlainNames(names)
    requires TargetOf(before, text).Some? && TargetOf(after, text) == None
    ensures Unfold(after, Rename(Object(map[REF := Text(text)]), RefNames(names)), 1)
         != Unfold(before, Object(map[REF := Text(text)]), 1)
  {
    RenamedRefs(names, text);
    UnchangedReference(RefNames(names), text);
    UnfoldText(after, text, 1);
    MeaningOfRef(before, text);
    assert Unfold(after, Object(map[REF := Text(text)]), 1).fields[REF] == Leaf(Text(text));
  }

  lemma UnchangedReference(refs: map<string, string>, text: string)
    requires text !in refs
    ensures Rename(Object(map[REF := Text(text)]), refs) == Object(map[REF := Text(text)])
  {}

  /** Both conditions are exact: in a merge that is not refused, references to whole schemas
      and the given reference keep their meaning for every content of tables with these names
      if and only if no frozen name is the legacy name of a shared one and the given reference
      does not point inside a shared schema. */
  lemma {:induction false} NamesDecide(generatedNames: set<string>, frozenNames: set<string>, text: string)
    requires PlainNames(generatedNames) && !Refuses(generatedNames, frozenNames)
    requires PREFIX <= text && NameOf(text) in generatedNames
    ensures LegacyNamesFree(generatedNames, frozenNames) && !PointsInside(text, generatedNames * frozenNames) <==>
            forall generated, frozen, n, depth :: Transparent(generated, frozen, generatedNames, frozenNames, n, text, depth)
  {
    if LegacyNamesFree(generatedNames, frozenNames) && !PointsInside(text, generatedNames * frozenNames) {
      forall generated, frozen, n, depth
        ensures Transparent(generated, frozen, generatedNames, frozenNames, n, text, depth)
      {
        FreeNamesAreTransparent(generated, frozen, generatedNames, frozenNames, n, text, depth);
      }
    } else {
      var generated, frozen, n := OpaqueTables(generatedNames, frozenNames, text);
      assert !Transparent(generated, frozen, generatedNames, frozenNames, n, text, 1);
    }
  }

  lemma OpaqueTables(generatedNames: set<string>, frozenNames: set<string>, text: string)
    returns (generated: map<string, Json>, frozen: map<string, Json>, n: string)
    requires PlainNames(generatedNames) && PREFIX <= text && NameOf(text) in generatedNames
    requires !LegacyNamesFree(generatedNames, frozenNames) || PointsInside(text, generatedNames * frozenNames)
    ensures !Transparent(generated, frozen, generatedNames, frozenNames, n, text, 1)
  {
    frozen := map k | k in frozenNames :: Null;
    if PointsInside(text, generatedNames * frozenNames) {
      InsideReferenceBreaks(generatedNames, frozenNames, text);
      generated := map k | k in generatedNames :: if k == NameOf(text) then Nest(PathOf(text)) else Object(map[]);
      n := NameOf(text);
    } else {
      n :| n in generatedNames * frozenNames && Legacy(n) in frozenNames;
      TakenNameBreaks(generatedNames, frozenNames, n);
      generated := map k | k in generatedNames :: Object(map[]);
    }
  }

  lemma FreeNamesAreTransparent(
      generated: map<string, Json>, frozen: map<string, Json>, generatedNames: set<string>, frozenNames: set<string>,
      n: string, text: string, depth: nat)
    requires PlainNames(generatedNames) && !Refuses(generatedNames, frozenNames)
    requires LegacyNamesFree(generatedNames, frozenNames)
    requires PREFIX <= text && NameOf(text) in generatedNames && !PointsInside(text, generatedNames * frozenNames)
    ensures Transparent(generated, frozen, generatedNames, frozenNames, n, text, depth)
  {
    if Tables(generated, frozen, generatedNames, frozenNames) && n in generatedNames {
      assert NoCollision(generatedNames, frozenNames);
      PartsOfRef(n);
      FreeNamesSuffice(generated, frozen, Ref(n), depth);
      FreeNamesSuffice(generated, frozen, text, depth);
    }
  }

  /** In these tables the reference to the whole of n and the reference `text` keep their meaning. */
  ghost predicate Transparent(
      generated: map<string, Json>, frozen: map<string, Json>, generatedNames: set<string>, frozenNames: set<string>,
      n: string, text: string, depth: nat)
  {
    Tables(generated, frozen, generatedNames, frozenNames) && n in generatedNames ==>
      SameMeaning(generated, frozen, Ref(n), depth) && SameMeaning(generated, frozen, text, depth)
  }
}
