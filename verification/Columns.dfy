/** Column coalescing of strathmark/features.py: several spellings of one field, first present
    value wins. */
module Columns {
  import opened Wrappers
  import opened Lists

  /** A column under its normalised name, one cell per row. */
  datatype Column<V> = Column(name: string, cells: seq<Option<V>>)

  function Named<V>(name: string): Column<V> -> bool {
    (c: Column<V>) => c.name == name
  }

  /** The columns that may fill a field, best first: candidate by candidate, then as listed. */
  function Sources<V>(columns: seq<Column<V>>, candidates: seq<string>): seq<Column<V>> {
    if candidates == [] then []
    else Filter(Named(candidates[0]), columns) + Sources(columns, candidates[1..])
  }

  function CellAt<V>(c: Column<V>, row: nat): Option<V> {
    if row < |c.cells| then c.cells[row] else None
  }

  function FirstPresent<V>(sources: seq<Column<V>>, row: nat): Option<V> {
    if sources == [] then None
    else if CellAt(sources[0], row).Some? then CellAt(sources[0], row)
    else FirstPresent(sources[1..], row)
  }

  /** The value of a field is that of its first source that has one. */
  lemma {:induction false} FirstPresentIsFirst<V>(sources: seq<Column<V>>, row: nat, v: V)
    ensures FirstPresent(sources, row) == Some(v) <==>
      exists k: nat :: k < |sources| && CellAt(sources[k], row) == Some(v)
                       && forall j: nat | j < k :: CellAt(sources[j], row).None?
  {
    if sources != [] {
      FirstPresentIsFirst(sources[1..], row, v);
      if FirstPresent(sources, row) == Some(v) && CellAt(sources[0], row).None? {
        var k: nat :| k < |sources| - 1 && CellAt(sources[1..][k], row) == Some(v)
                      && forall j: nat | j < k :: CellAt(sources[1..][j], row).None?;
        assert CellAt(sources[k + 1], row) == Some(v);
        forall j: nat | j < k + 1 ensures CellAt(sources[j], row).None? {
          assert j > 0 ==> sources[j] == sources[1..][j - 1];
        }
      }
      if k: nat :| k < |sources| && CellAt(sources[k], row) == Some(v)
                   && forall j: nat | j < k :: CellAt(sources[j], row).None? {
        if k > 0 {
          assert CellAt(sources[1..][k - 1], row) == Some(v);
          assert forall j: nat | j < k - 1 :: sources[1..][j] == sources[j + 1];
        }
      }
    }
  }

  lemma {:induction false} FirstPresentAppend<V>(sources: seq<Column<V>>, last: Column<V>, row: nat)
    ensures FirstPresent(sources + [last], row)
            == if FirstPresent(sources, row).Some? then FirstPresent(sources, row) else CellAt(last, row)
  {
    var longer := sources + [last];
    if sources == [] {
      assert longer[0] == last && longer[1..] == [];
    } else {
      assert longer[0] == sources[0] && longer[1..] == sources[1..] + [last];
      FirstPresentAppend(sources[1..], last, row);
    }
  }

  function CombineFirst<V>(cells: seq<Option<V>>, c: Column<V>): (r: seq<Option<V>>)
    ensures |r| == |cells|
    ensures forall row | 0 <= row < |r| :: r[row] == if cells[row].Some? then cells[row] else CellAt(c, row)
  {
    seq(|cells|, row requires 0 <= row < |cells| => if cells[row].Some? then cells[row] else CellAt(c, row))
  }

  ghost predicate FilledFrom<V>(cells: seq<Option<V>>, sources: seq<Column<V>>) {
    forall row | 0 <= row < |cells| :: cells[row] == FirstPresent(sources, row)
  }

  lemma CombineFills<V>(cells: seq<Option<V>>, sources: seq<Column<V>>, c: Column<V>)
    requires FilledFrom(cells, sources)
    ensures FilledFrom(CombineFirst(cells, c), sources + [c])
  {
    forall row | 0 <= row < |cells| ensures CombineFirst(cells, c)[row] == FirstPresent(sources + [c], row) {
      FirstPresentAppend(sources, c, row);
    }
  }

  /** Fills a field from its candidate columns, earlier ones first. */
  method Coalesce<V>(columns: seq<Column<V>>, candidates: seq<string>, rows: nat)
    returns (cells: seq<Option<V>>)
    ensures |cells| == rows
    ensures FilledFrom(cells, Sources(columns, candidates))
  {
    var normalized := Grouped(columns);
    cells := seq(rows, _ => None);
    var i := 0;
    while i < |candidates|
      invariant 0 <= i <= |candidates|
      invariant |cells| == rows
      invariant FilledFrom(cells, Sources(columns, candidates[..i]))
    {
      var originals := if candidates[i] in normalized then normalized[candidates[i]] else [];
      cells := FillMore(cells, originals, Sources(columns, candidates[..i]));
      assert candidates[..i + 1] == candidates[..i] + [candidates[i]];
      SourcesAppend(columns, candidates[..i], candidates[i]);
      i := i + 1;
    }
    assert candidates[..i] == candidates;
  }

  method FillMore<V>(before: seq<Option<V>>, originals: seq<Column<V>>, ghost sources: seq<Column<V>>)
    returns (cells: seq<Option<V>>)
    requires FilledFrom(before, sources)
    ensures |cells| == |before| && FilledFrom(cells, sources + originals)
  {
    cells := before;
    var j := 0;
    assert sources + originals[..0] == sources;
    while j < |originals|
      invariant 0 <= j <= |originals|
      invariant |cells| == |before|
      invariant FilledFrom(cells, sources + originals[..j])
    {
      CombineFills(cells, sources + originals[..j], originals[j]);
      cells := CombineFirst(cells, originals[j]);
      assert sources + originals[..j + 1] == sources + originals[..j] + [originals[j]];
      j := j + 1;
    }
    assert originals[..j] == originals;
  }

  lemma {:induction false} SourcesAppend<V>(columns: seq<Column<V>>, candidates: seq<string>, last: string)
    ensures Sources(columns, candidates + [last]) == Sources(columns, candidates) + Filter(Named(last), columns)
  {
    if candidates == [] {
      assert candidates + [last] == [last];
      assert Sources(columns, [last][1..]) == [];
    } else {
      assert (candidates + [last])[0] == candidates[0] && (candidates + [last])[1..] == candidates[1..] + [last];
      SourcesAppend(columns, candidates[1..], last);
    }
  }

  /** The columns under each name, in their order. */
  method Grouped<V>(columns: seq<Column<V>>) returns (groups: map<string, seq<Column<V>>>)
    ensures forall name :: (if name in groups then groups[name] else []) == Filter(Named(name), columns)
  {
    groups := map[];
    var i := 0;
    while i < |columns|
      invariant 0 <= i <= |columns|
      invariant forall name :: (if name in groups then groups[name] else []) == Filter(Named(name), columns[..i])
    {
      var c := columns[i];
      assert columns[..i + 1] == columns[..i] + [c];
      forall name
        ensures Filter(Named(name), columns[..i + 1])
                == Filter(Named(name), columns[..i]) + (if c.name == name then [c] else [])
      {
        FilterAppend(Named(name), columns[..i], [c]);
        assert [c][1..] == [];
      }
      groups := groups[c.name := (if c.name in groups then groups[c.name] else []) + [c]];
      i := i + 1;
    }
    assert columns[..i] == columns;
  }

  /** A column under a name that no candidate mentions has no influence, wherever it stands. */
  lemma {:induction false} OtherColumnsDoNotMatter<V>(
      before: seq<Column<V>>, other: Column<V>, after: seq<Column<V>>, candidates: seq<string>)
    requires other.name !in candidates
    ensures Sources(before + [other] + after, candidates) == Sources(before + after, candidates)
  {
    if candidates != [] {
      assert candidates[0] in candidates && forall name | name in candidates[1..] :: name in candidates;
      FilterSkips(Named(candidates[0]), before, other, after);
      OtherColumnsDoNotMatter(before, other, after, candidates[1..]);
    }
  }

  lemma FilterSkips<A>(p: A -> bool, before: seq<A>, other: A, after: seq<A>)
    requires !p(other)
    ensures Filter(p, before + [other] + after) == Filter(p, before + after)
  {
    FilterAppend(p, before + [other], after);
    FilterAppend(p, before, [other]);
    FilterAppend(p, before, after);
    assert Filter(p, [other]) == [];
  }
}
