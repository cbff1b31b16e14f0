/** The causal evidence filter of strathmark/features.py: which rows a prediction may use, why
    the others are excluded, and that nothing dated on or after the cutoff matters. */
module PriorEvidence {
  import opened Wrappers
  import opened Lists
  import opened Tallies
  import opened SpeciesTable

  datatype RawDate = NoDate | Unparsable | Day(day: int)

  /** A raw row after cleaning: a blank identifier, a non-finite number is None. */
  datatype RawRow = RawRow(
    competitor: Option<string>, event: string, time: Option<real>, date: RawDate,
    diameter: Option<real>, species: string, gender: string)

  datatype Reason =
    | MissingCompetitor
    | InvalidEvent
    | InvalidTime
    | Undated
    | InvalidDate
    | SameDay
    | Future
    | InvalidDiameter

  datatype Evidence = Evidence(
    competitor: string, event: string, time: real, day: int, diameter: real,
    species: string, gender: string, properties: Properties, speciesMissing: bool)

  predicate Positive(x: Option<real>) {
    x.Some? && x.value > 0.0
  }

  /** The first reason a row is excluded for, None for an accepted row. */
  function Refusal(row: RawRow, cutoff: int): Option<Reason> {
    if row.competitor.None? then Some(MissingCompetitor)
    else if row.event !in {"SB", "UH"} then Some(InvalidEvent)
    else if !Positive(row.time) then Some(InvalidTime)
    else if row.date.NoDate? then Some(Undated)
    else if row.date.Unparsable? then Some(InvalidDate)
    else if row.date.day == cutoff then Some(SameDay)
    else if row.date.day > cutoff then Some(Future)
    else if !Positive(row.diameter) then Some(InvalidDiameter)
    else None
  }

  function IsAccepted(cutoff: int): RawRow -> bool {
    (row: RawRow) => Refusal(row, cutoff).None?
  }

  function IsRefusedFor(cutoff: int, reason: Reason): RawRow -> bool {
    (row: RawRow) => Refusal(row, cutoff) == Some(reason)
  }

  function Known<T>(o: Option<T>, default: T): T {
    if o.Some? then o.value else default
  }

  /** The evidence an accepted row becomes; the defaults stand for fields no accepted row lacks. */
  function ToEvidence(table: Table): RawRow -> Evidence {
    (row: RawRow) =>
      var (properties, missing) := Resolve(row.species, table);
      Evidence(Known(row.competitor, ""), row.event, Known(row.time, 0.0),
               if row.date.Day? then row.date.day else 0, Known(row.diameter, 0.0),
               row.species, row.gender, properties, missing)
  }

  function Accepted(rows: seq<RawRow>, cutoff: int, table: Table): seq<Evidence> {
    Map(ToEvidence(table), Filter(IsAccepted(cutoff), rows))
  }

  datatype Diagnostics = Diagnostics(total: nat, included: nat, excluded: map<Reason, nat>)

  // ---------------------------------------------------------------- the loop

  /** What the loop has made of the rows seen so far. */
  ghost predicate Built(
      rows: seq<RawRow>, cutoff: int, table: Table, accepted: seq<Evidence>, exclusions: map<Reason, nat>)
  {
    && accepted == Accepted(rows, cutoff, table)
    && |accepted| + Total(exclusions) == |rows|
    && forall reason :: Get(exclusions, reason) == CountIf(IsRefusedFor(cutoff, reason), rows)
  }

  lemma OneMoreAccepted(
      rows: seq<RawRow>, row: RawRow, cutoff: int, table: Table, accepted: seq<Evidence>, exclusions: map<Reason, nat>)
    requires Built(rows, cutoff, table, accepted, exclusions) && Refusal(row, cutoff).None?
    ensures Built(rows + [row], cutoff, table, accepted + [ToEvidence(table)(row)], exclusions)
  {
    AcceptedAppend(rows, row, cutoff, table);
    forall reason { CountAppend(IsRefusedFor(cutoff, reason), rows, row); }
  }

  lemma OneMoreRefused(
      rows: seq<RawRow>, row: RawRow, cutoff: int, table: Table, accepted: seq<Evidence>, exclusions: map<Reason, nat>)
    requires Built(rows, cutoff, table, accepted, exclusions) && Refusal(row, cutoff).Some?
    ensures var why := Refusal(row, cutoff).value;
            Built(rows + [row], cutoff, table, accepted, exclusions[why := Get(exclusions, why) + 1])
  {
    var why := Refusal(row, cutoff).value;
    AcceptedAppend(rows, row, cutoff, table);
    TotalUpdate(exclusions, why, Get(exclusions, why) + 1);
    forall reason { CountAppend(IsRefusedFor(cutoff, reason), rows, row); }
  }

  /** Every row is either included, in input order, or counted under exactly one reason. */
  method BuildPriorEvidence(rows: seq<RawRow>, cutoff: int, table: Table)
    returns (accepted: seq<Evidence>, diagnostics: Diagnostics)
    ensures accepted == Accepted(rows, cutoff, table)
    ensures |accepted| == CountIf(IsAccepted(cutoff), rows)
    ensures forall i | 0 <= i < |rows| && IsAccepted(cutoff)(rows[i]) ::
      CountIf(IsAccepted(cutoff), rows[..i]) < |accepted| &&
      IsEvidenceOf(accepted[CountIf(IsAccepted(cutoff), rows[..i])], rows[i], table)
    ensures diagnostics.total == |rows| && diagnostics.included == |accepted|
    ensures diagnostics.included + Total(diagnostics.excluded) == diagnostics.total
    ensures forall reason :: Get(diagnostics.excluded, reason) == CountIf(IsRefusedFor(cutoff, reason), rows)
  {
    accepted := [];
    var exclusions: map<Reason, nat> := map[];
    var i := 0;
    while i < |rows|
      invariant 0 <= i <= |rows|
      invariant Built(rows[..i], cutoff, table, accepted, exclusions)
    {
      var row := rows[i];
      assert rows[..i + 1] == rows[..i] + [row];
      var reason := Refusal(row, cutoff);
      if reason.Some? {
        OneMoreRefused(rows[..i], row, cutoff, table, accepted, exclusions);
        exclusions := exclusions[reason.value := Get(exclusions, reason.value) + 1];
      } else {
        OneMoreAccepted(rows[..i], row, cutoff, table, accepted, exclusions);
        accepted := accepted + [ToEvidence(table)(row)];
      }
      i := i + 1;
    }
    assert rows[..i] == rows;
    CountAccepted(rows, cutoff, table);
    forall k | 0 <= k < |rows| && IsAccepted(cutoff)(rows[k])
      ensures CountIf(IsAccepted(cutoff), rows[..k]) < |accepted|
      ensures IsEvidenceOf(accepted[CountIf(IsAccepted(cutoff), rows[..k])], rows[k], table)
    {
      EvidenceByPosition(rows, cutoff, table, k);
    }
    diagnostics := Diagnostics(|rows|, |accepted|, exclusions);
  }

  lemma AcceptedAppend(rows: seq<RawRow>, row: RawRow, cutoff: int, table: Table)
    ensures Accepted(rows + [row], cutoff, table)
            == Accepted(rows, cutoff, table) + if Refusal(row, cutoff).None? then [ToEvidence(table)(row)] else []
  {
    FilterAppend(IsAccepted(cutoff), rows, [row]);
    assert [row][1..] == [];
    if Refusal(row, cutoff).None? {
      MapAppend(ToEvidence(table), Filter(IsAccepted(cutoff), rows), [row]);
    }
  }

  lemma {:induction false} CountAppend<T>(p: T -> bool, s: seq<T>, x: T)
    ensures CountIf(p, s + [x]) == CountIf(p, s) + if p(x) then 1 else 0
  {
    if s == [] {
      assert s + [x] == [x] && [x][1..] == [];
    } else {
      assert (s + [x])[0] == s[0] && (s + [x])[1..] == s[1..] + [x];
      CountAppend(p, s[1..], x);
    }
  }

  // ---------------------------------------------------------------- causality

  function IsBefore(cutoff: int): RawRow -> bool {
    (row: RawRow) => row.date.Day? && row.date.day < cutoff
  }

  function DatedBefore(cutoff: int): Evidence -> bool {
    (e: Evidence) => e.day < cutoff
  }

  /** What is accepted: an identified competitor, a known event, a positive time and diameter,
      and a date strictly before the cutoff; whatever else the row says. */
  lemma AcceptedIff(row: RawRow, cutoff: int)
    ensures IsAccepted(cutoff)(row) <==>
      && row.competitor.Some? && (row.event == "SB" || row.event == "UH")
      && Positive(row.time) && Positive(row.diameter)
      && IsBefore(cutoff)(row)
  {}

  /** What each reason means by itself, whatever else is wrong with the row. */
  predicate Fault(row: RawRow, cutoff: int, reason: Reason) {
    match reason
    case MissingCompetitor => row.competitor.None?
    case InvalidEvent => row.event != "SB" && row.event != "UH"
    case InvalidTime => !Positive(row.time)
    case Undated => row.date == NoDate
    case InvalidDate => row.date == Unparsable
    case SameDay => row.date == Day(cutoff)
    case Future => row.date.Day? && row.date.day > cutoff
    case InvalidDiameter => !Positive(row.diameter)
  }

  /** Identity, event and time come before the date, and the diameter comes last. */
  function Rank(reason: Reason): nat {
    match reason
    case MissingCompetitor => 0
    case InvalidEvent => 1
    case InvalidTime => 2
    case Undated => 3
    case InvalidDate => 3
    case SameDay => 3
    case Future => 3
    case InvalidDiameter => 4
  }

  /** A row is counted under the one fault it has that no fault of it precedes. */
  lemma ReasonIsTheFirstFault(row: RawRow, cutoff: int, reason: Reason)
    ensures Refusal(row, cutoff) == Some(reason) <==>
      Fault(row, cutoff, reason) && forall other | Fault(row, cutoff, other) :: Rank(reason) <= Rank(other)
  {
    if Refusal(row, cutoff).Some? {
      var first := Refusal(row, cutoff).value;
      assert Fault(row, cutoff, first);
      forall other | Fault(row, cutoff, other) ensures other == first || Rank(first) < Rank(other) {}
    } else {
      assert !Fault(row, cutoff, reason);
    }
  }

  /** The evidence says of the row, field by field, what the row says, and its properties are
      those of the row's species, or the pool's with the mark that it has none of its own. */
  ghost predicate IsEvidenceOf(e: Evidence, row: RawRow, table: Table) {
    && row.competitor == Some(e.competitor)
    && row.event == e.event
    && row.time == Some(e.time)
    && row.date == Day(e.day)
    && row.diameter == Some(e.diameter)
    && row.species == e.species
    && row.gender == e.gender
    && (e.speciesMissing <==> row.species == "__MISSING__" || row.species !in table.lookup)
    && e.properties == if e.speciesMissing then table.pooled else table.lookup[row.species]
  }

  /** Every accepted row is evidence at its own place: after the evidence of the accepted rows
      before it and before that of the others. There is no further evidence. */
  lemma {:induction false} EvidenceByPosition(rows: seq<RawRow>, cutoff: int, table: Table, i: nat)
    requires i < |rows|
    ensures |Accepted(rows, cutoff, table)| == CountIf(IsAccepted(cutoff), rows)
    ensures IsAccepted(cutoff)(rows[i]) ==>
      && CountIf(IsAccepted(cutoff), rows[..i]) < |Accepted(rows, cutoff, table)|
      && IsEvidenceOf(Accepted(rows, cutoff, table)[CountIf(IsAccepted(cutoff), rows[..i])], rows[i], table)
    decreases |rows|
  {
    var last := |rows| - 1;
    assert rows == rows[..last] + [rows[last]];
    AcceptedAppend(rows[..last], rows[last], cutoff, table);
    CountAppend(IsAccepted(cutoff), rows[..last], rows[last]);
    CountAccepted(rows[..last], cutoff, table);
    if i < last {
      EvidenceByPosition(rows[..last], cutoff, table, i);
      assert rows[..last][..i] == rows[..i];
    } else if IsAccepted(cutoff)(rows[last]) {
      AcceptedRowIsEvidence(rows[last], cutoff, table);
    }
  }

  lemma {:induction false} CountAccepted(rows: seq<RawRow>, cutoff: int, table: Table)
    ensures |Accepted(rows, cutoff, table)| == CountIf(IsAccepted(cutoff), rows)
  {
    if rows != [] {
      CountAccepted(rows[1..], cutoff, table);
    }
  }

  lemma AcceptedRowIsEvidence(row: RawRow, cutoff: int, table: Table)
    requires IsAccepted(cutoff)(row)
    ensures IsEvidenceOf(ToEvidence(table)(row), row, table)
  {}

  /** All evidence predates the cutoff, has positive measurements and comes from an accepted
      row. */
  lemma EvidenceIsPrior(rows: seq<RawRow>, cutoff: int, table: Table, e: Evidence)
    requires e in Accepted(rows, cutoff, table)
    ensures e.day < cutoff && e.time > 0.0 && e.diameter > 0.0 && e.event in {"SB", "UH"}
    ensures exists row :: row in rows && IsAccepted(cutoff)(row) && IsEvidenceOf(e, row, table)
  {
    var kept := Filter(IsAccepted(cutoff), rows);
    var i :| 0 <= i < |kept| && Map(ToEvidence(table), kept)[i] == e;
    FilterFinds(IsAccepted(cutoff), rows, kept[i]);
    AcceptedIff(kept[i], cutoff);
    AcceptedRowIsEvidence(kept[i], cutoff, table);
  }

  /** Rows that are undated, unreadable, or dated on or after the cutoff never matter. */
  lemma OnlyPriorRowsMatter(rows: seq<RawRow>, cutoff: int, table: Table)
    ensures Accepted(Filter(IsBefore(cutoff), rows), cutoff, table) == Accepted(rows, cutoff, table)
  {
    FilterTwice(IsAccepted(cutoff), IsBefore(cutoff), rows);
  }

  /** Adding, deleting, reordering or editing such rows leaves the evidence as it is. */
  lemma FutureEditsChangeNothing(rows: seq<RawRow>, edited: seq<RawRow>, cutoff: int, table: Table)
    requires Filter(IsBefore(cutoff), rows) == Filter(IsBefore(cutoff), edited)
    ensures Accepted(rows, cutoff, table) == Accepted(edited, cutoff, table)
  {
    OnlyPriorRowsMatter(rows, cutoff, table);
    OnlyPriorRowsMatter(edited, cutoff, table);
  }

  /** Evidence as of an earlier day is the later evidence restricted to that day. */
  lemma {:induction false} EarlierEvidenceIsARestriction(rows: seq<RawRow>, early: int, late: int, table: Table)
    requires early <= late
    ensures Accepted(rows, early, table) == Filter(DatedBefore(early), Accepted(rows, late, table))
  {
    if rows != [] {
      EarlierEvidenceIsARestriction(rows[1..], early, late, table);
      var rest := Accepted(rows[1..], late, table);
      if IsAccepted(late)(rows[0]) {
        var all := Accepted(rows, late, table);
        assert all[0] == ToEvidence(table)(rows[0]) && all[1..] == rest;
      }
    }
  }

  /** The evidence of a reordered history is the same evidence reordered. */
  lemma AcceptedForgetsOrder(rows: seq<RawRow>, other: seq<RawRow>, cutoff: int, table: Table)
    requires multiset(Filter(IsAccepted(cutoff), rows)) == multiset(Filter(IsAccepted(cutoff), other))
    ensures multiset(Accepted(rows, cutoff, table)) == multiset(Accepted(other, cutoff, table))
  {
    MapForgetsOrder(ToEvidence(table), Filter(IsAccepted(cutoff), rows), Filter(IsAccepted(cutoff), other));
  }
}
