/** The species property table of strathmark/features.py: one row per known species, gaps and
    unknown species filled by column medians. */
module SpeciesTable {
  import opened Wrappers
  import opened Lists
  import opened Medians

  const MISSING := "__MISSING__"

  const PROPERTY_COUNT: nat := 6

  type Property = p: nat | p < PROPERTY_COUNT

  /** Janka hardness, specific gravity, crush strength, shear strength, modulus of rupture,
      modulus of elasticity. */
  type Properties = s: seq<real> | |s| == PROPERTY_COUNT witness seq(PROPERTY_COUNT, _ => 0.0)

  type Readings = s: seq<Option<real>> | |s| == PROPERTY_COUNT witness seq(PROPERTY_COUNT, _ => None)

  const DEFAULTS: Properties := [1690.0, 0.34, 4000.0, 1000.0, 8000.0, 1000000.0]

  /** A cleaned row of the wood table; a reading that is no finite number is None. */
  datatype WoodRow = WoodRow(species: string, readings: Readings)

  datatype Table = Table(lookup: map<string, Properties>, pooled: Properties)

  function IsUsable(): WoodRow -> bool { (row: WoodRow) => row.species != MISSING }

  function Usable(wood: seq<WoodRow>): seq<WoodRow> {
    Filter(IsUsable(), wood)
  }

  function HasReading(p: Property): WoodRow -> bool {
    (row: WoodRow) => row.readings[p].Some?
  }

  function Reading(p: Property): WoodRow -> real {
    (row: WoodRow) => match row.readings[p] case Some(v) => v case None => 0.0
  }

  function Column(rows: seq<WoodRow>, p: Property): seq<real> {
    Map(Reading(p), Filter(HasReading(p), rows))
  }

  function PooledAt(rows: seq<WoodRow>, p: Property): real {
    if Column(rows, p) == [] then DEFAULTS[p] else Median(Column(rows, p))
  }

  function Pooled(rows: seq<WoodRow>): (r: Properties) {
    seq(PROPERTY_COUNT, p requires 0 <= p < PROPERTY_COUNT => PooledAt(rows, p))
  }

  function Filled(readings: Readings, pooled: Properties): (r: Properties)
    ensures forall p: Property :: r[p] == if readings[p].Some? then readings[p].value else pooled[p]
  {
    seq(PROPERTY_COUNT, p requires 0 <= p < PROPERTY_COUNT =>
      if readings[p].Some? then readings[p].value else pooled[p])
  }

  ghost predicate Repeats(rows: seq<WoodRow>) {
    exists i, j :: 0 <= i < j < |rows| && rows[i].species == rows[j].species
  }

  /** The table a list of usable rows stands for. */
  ghost predicate Tabulates(rows: seq<WoodRow>, table: Table) {
    && table.pooled == Pooled(rows)
    && IsLookup(rows, table.pooled, table.lookup)
  }

  ghost predicate IsLookup(rows: seq<WoodRow>, pooled: Properties, lookup: map<string, Properties>) {
    && (forall species | species in lookup :: exists i :: 0 <= i < |rows| && rows[i].species == species)
    && (forall i | 0 <= i < |rows| ::
          rows[i].species in lookup && lookup[rows[i].species] == Filled(rows[i].readings, pooled))
  }

  /** One row per species is demanded of the named rows only; then every named species gets its
      own readings, gaps filled, and nothing else is in the table. */
  method PropertyLookup(wood: Option<seq<WoodRow>>) returns (result: Result<Table, string>)
    ensures result.Err? <==> wood.Some? && Repeats(Usable(wood.value))
    ensures result.Ok? && wood.Some? ==> Tabulates(Usable(wood.value), result.value)
    ensures wood.None? ==> result == Ok(Table(map[], DEFAULTS))
  {
    if wood.None? || wood.value == [] {
      if wood.Some? {
        assert forall p: Property :: Column([], p) == [];
        assert Pooled([]) == DEFAULTS;
      }
      return Ok(Table(map[], DEFAULTS));
    }
    var usable := Usable(wood.value);
    var pooled := Pooled(usable);
    var lookup: map<string, Properties> := map[];
    var i := 0;
    while i < |usable|
      invariant 0 <= i <= |usable|
      invariant IsLookup(usable[..i], pooled, lookup)
      invariant !Repeats(usable[..i])
    {
      var row := usable[i];
      assert usable[..i + 1] == usable[..i] + [row];
      if row.species in lookup {
        var k :| 0 <= k < i && usable[..i][k].species == row.species;
        assert usable[k].species == usable[i].species;
        return Err(row.species);
      }
      ExtendLookup(usable[..i], row, pooled, lookup);
      lookup := lookup[row.species := Filled(row.readings, pooled)];
      i := i + 1;
    }
    assert usable[..i] == usable;
    return Ok(Table(lookup, pooled));
  }

  lemma ExtendLookup(rows: seq<WoodRow>, row: WoodRow, pooled: Properties, lookup: map<string, Properties>)
    requires IsLookup(rows, pooled, lookup) && !Repeats(rows) && row.species !in lookup
    ensures IsLookup(rows + [row], pooled, lookup[row.species := Filled(row.readings, pooled)])
    ensures !Repeats(rows + [row])
  {
    var longer, wider := rows + [row], lookup[row.species := Filled(row.readings, pooled)];
    forall species | species in wider ensures exists i :: 0 <= i < |longer| && longer[i].species == species {
      if species == row.species {
        assert longer[|rows|] == row;
      } else {
        var i :| 0 <= i < |rows| && rows[i].species == species;
        assert longer[i] == rows[i];
      }
    }
    forall i, j | 0 <= i < j < |longer| ensures longer[i].species != longer[j].species {
      assert longer[i] == rows[i];
      assert rows[i].species in lookup;
      if j < |rows| {
        assert longer[j] == rows[j];
      }
    }
  }

  /** The properties of one species, and whether it is missing from the table. */
  function Resolve(species: string, table: Table): (Properties, bool) {
    if species == MISSING || species !in table.lookup then (table.pooled, true) else (table.lookup[species], false)
  }

  /** A species is flagged exactly when no usable row names it; a known one carries its own
      finite readings, and only its gaps come from the pool. */
  lemma ResolveIsFaithful(rows: seq<WoodRow>, table: Table, species: string)
    requires Tabulates(Usable(rows), table)
    ensures
      var (properties, missing) := Resolve(species, table);
      && (missing <==> species == MISSING || forall row | row in rows :: row.species != species)
      && (missing ==> properties == Pooled(Usable(rows)))
      && (!missing ==> exists row :: row in rows && row.species == species
                                     && properties == Filled(row.readings, Pooled(Usable(rows))))
  {
    var usable := Usable(rows);
    forall row | row in rows && row.species != MISSING ensures row.species in table.lookup {
      FilterKeeps(IsUsable(), rows, row);
      var i :| 0 <= i < |usable| && usable[i] == row;
    }
    if species != MISSING {
      if species in table.lookup {
        var i :| 0 <= i < |usable| && usable[i].species == species;
        assert usable[i] in usable;
        FilterFinds(IsUsable(), rows, usable[i]);
      } else {
        assert forall row | row in rows :: row.species != species;
      }
    }
  }

  // ---------------------------------------------------------------- what the pool is

  /** The finite readings of one property, row by row. */
  function Present(rows: seq<WoodRow>, p: Property): seq<real> {
    if rows == [] then []
    else
      match rows[0].readings[p]
      case Some(v) => [v] + Present(rows[1..], p)
      case None => Present(rows[1..], p)
  }

  lemma {:induction false} ColumnIsPresent(rows: seq<WoodRow>, p: Property)
    ensures Column(rows, p) == Present(rows, p)
  {
    if rows != [] {
      ColumnIsPresent(rows[1..], p);
      if rows[0].readings[p].Some? {
        var kept := Filter(HasReading(p), rows);
        assert kept[0] == rows[0] && kept[1..] == Filter(HasReading(p), rows[1..]);
      }
    }
  }

  /** A property that no named species has a reading of is pooled as its fixed default, any other
      as the median of the readings there are. */
  lemma PooledIsTheMedian(rows: seq<WoodRow>, p: Property)
    returns (low: seq<real>, high: seq<real>, a: real, b: real)
    ensures |Pooled(rows)| == 6
    ensures (forall row | row in rows :: row.readings[p].None?) ==>
      Pooled(rows)[p] == [1690.0, 0.34, 4000.0, 1000.0, 8000.0, 1000000.0][p]
    ensures (exists row :: row in rows && row.readings[p].Some?) ==>
      Halved(Present(rows, p), low, high, a, b) && Pooled(rows)[p] == (a + b) / 2.0
  {
    ColumnIsPresent(rows, p);
    PresentIsEmptyIff(rows, p);
    if Present(rows, p) != [] {
      low, high, a, b := HalvesExist(Present(rows, p));
      MedianOfHalves(Present(rows, p), low, high, a, b);
    } else {
      low, high, a, b := [], [], 0.0, 0.0;
    }
  }

  lemma {:induction false} PresentIsEmptyIff(rows: seq<WoodRow>, p: Property)
    ensures Present(rows, p) == [] <==> forall row | row in rows :: row.readings[p].None?
  {
    if rows != [] {
      PresentIsEmptyIff(rows[1..], p);
      assert forall row | row in rows :: row == rows[0] || row in rows[1..];
    }
  }

  // ---------------------------------------------------------------- the order of the wood table

  lemma PooledForgetsOrder(rows: seq<WoodRow>, other: seq<WoodRow>, p: Property)
    requires multiset(rows) == multiset(other)
    ensures PooledAt(rows, p) == PooledAt(other, p)
  {
    FilterForgetsOrder(HasReading(p), rows, other);
    MapForgetsOrder(Reading(p), Filter(HasReading(p), rows), Filter(HasReading(p), other));
    var a, b := Column(rows, p), Column(other, p);
    assert |a| == |multiset(a)| == |multiset(b)| == |b|;
    if a != [] {
      MedianForgetsOrder(a, b);
    }
  }

  lemma LookupForgetsOrder(
      rows: seq<WoodRow>, other: seq<WoodRow>, pooled: Properties,
      a: map<string, Properties>, b: map<string, Properties>)
    requires multiset(rows) == multiset(other)
    requires IsLookup(rows, pooled, a) && IsLookup(other, pooled, b)
    ensures a == b
  {
    forall species | species in a ensures species in b && a[species] == b[species] {
      SameEntry(rows, other, pooled, a, b, species);
    }
    forall species | species in b ensures species in a {
      SameEntry(other, rows, pooled, b, a, species);
    }
  }

  lemma SameEntry(
      rows: seq<WoodRow>, other: seq<WoodRow>, pooled: Properties,
      a: map<string, Properties>, b: map<string, Properties>, species: string)
    requires multiset(rows) == multiset(other)
    requires IsLookup(rows, pooled, a) && IsLookup(other, pooled, b) && species in a
    ensures species in b && a[species] == b[species]
  {
    var i :| 0 <= i < |rows| && rows[i].species == species;
    assert rows[i] in multiset(rows);
    assert rows[i] in multiset(other);
    var j :| 0 <= j < |other| && other[j] == rows[i];
  }

  /** Reordering the wood table changes no property of any species. */
  lemma WoodOrderDoesNotMatter(wood: seq<WoodRow>, other: seq<WoodRow>, table: Table, again: Table)
    requires multiset(wood) == multiset(other)
    requires Tabulates(Usable(wood), table) && Tabulates(Usable(other), again)
    ensures table == again
  {
    FilterForgetsOrder(IsUsable(), wood, other);
    forall p: Property ensures PooledAt(Usable(wood), p) == PooledAt(Usable(other), p) {
      PooledForgetsOrder(Usable(wood), Usable(other), p);
    }
    assert Pooled(Usable(wood)) == Pooled(Usable(other));
    LookupForgetsOrder(Usable(wood), Usable(other), table.pooled, table.lookup, again.lookup);
  }
}
