/** The canonical request of strathmark/calculator.py: a normal form of the inputs a
    calculation depends on. Printing of numbers and dates is a parameter. */
module CanonicalRequest {
  import opened Wrappers
  import opened Lists
  import opened Ordering
  import opened Tallies
  import opened SpeciesTable
  import opened PriorEvidence

  /** How str writes a number and a date. */
  datatype Printer = Printer(number: real -> string, date: int -> string)

  ghost predicate NumberOccurs(rows: seq<Evidence>, x: real) {
    exists e :: e in rows && HasNumber(e, x)
  }

  predicate HasNumber(e: Evidence, x: real) {
    x == e.time || x == e.diameter || x in e.properties
  }

  ghost predicate DateOccurs(rows: seq<Evidence>, day: int) {
    exists e :: e in rows && e.day == day
  }

  /** Different numbers and dates of these rows are written differently, as repr writes floats. */
  ghost predicate Faithful(printer: Printer, rows: seq<Evidence>) {
    && (forall x, y | NumberOccurs(rows, x) && NumberOccurs(rows, y) && printer.number(x) == printer.number(y) :: x == y)
    && (forall d, d' | DateOccurs(rows, d) && DateOccurs(rows, d') && printer.date(d) == printer.date(d') :: d == d')
  }

  function Position(list: seq<real>, x: real): nat {
    if list == [] || list[0] == x then 0 else 1 + Position(list[1..], x)
  }

  lemma {:induction false} PositionsDiffer(list: seq<real>, x: real, y: real)
    requires x in list && y in list && Position(list, x) == Position(list, y)
    ensures x == y
  {
    if list[0] != x && list[0] != y {
      PositionsDiffer(list[1..], x, y);
    }
  }

  function Tally(n: nat): (r: string)
    ensures |r| == n && forall i | 0 <= i < n :: r[i] == '1'
  {
    seq(n, _ => '1')
  }

  function TallyPrinter(list: seq<real>): Printer {
    Printer((x: real) => Tally(Position(list, x)), (d: int) => if d < 0 then "-" + Tally(-d) else Tally(d))
  }

  function NumbersOf(rows: seq<Evidence>): seq<real> {
    if rows == [] then [] else [rows[0].time, rows[0].diameter] + rows[0].properties + NumbersOf(rows[1..])
  }

  lemma {:induction false} OccurringNumbersAreListed(rows: seq<Evidence>, e: Evidence, x: real)
    requires e in rows && HasNumber(e, x)
    ensures x in NumbersOf(rows)
  {
    if rows[0] == e {
      assert x in [e.time, e.diameter] + e.properties;
    } else {
      OccurringNumbersAreListed(rows[1..], e, x);
    }
  }

  lemma DatesAreTallied(list: seq<real>, d: int, d': int)
    requires TallyPrinter(list).date(d) == TallyPrinter(list).date(d')
    ensures d == d'
  {
    var a, b := TallyPrinter(list).date(d), TallyPrinter(list).date(d');
    assert d < 0 ==> a[0] == '-';
    assert d' < 0 ==> b[0] == '-';
    assert |a| == if d < 0 then 1 - d else d;
    assert |b| == if d' < 0 then 1 - d' else d';
  }

  /** Every finite evidence has a printer that tells its numbers and dates apart. */
  lemma FaithfulPrinterExists(rows: seq<Evidence>)
    ensures Faithful(TallyPrinter(NumbersOf(rows)), rows)
  {
    var list := NumbersOf(rows);
    var printer := TallyPrinter(list);
    forall x, y | NumberOccurs(rows, x) && NumberOccurs(rows, y) && printer.number(x) == printer.number(y)
      ensures x == y
    {
      var e :| e in rows && HasNumber(e, x);
      var f :| f in rows && HasNumber(f, y);
      OccurringNumbersAreListed(rows, e, x);
      OccurringNumbersAreListed(rows, f, y);
      assert |printer.number(x)| == Position(list, x) && |printer.number(y)| == Position(list, y);
      PositionsDiffer(list, x, y);
    }
    forall d, d' | printer.date(d) == printer.date(d') ensures d == d' {
      DatesAreTallied(list, d, d');
    }
  }

  /** One history entry after cleaning; identity and gender come from the competitor. */
  datatype Item = Item(event: string, time: Option<real>, date: RawDate, diameter: Option<real>, species: string)

  datatype Competitor = Competitor(id: Option<string>, gender: string, override: Option<real>, history: seq<Item>)

  datatype Payload = Payload(id: Option<string>, gender: string, override: Option<real>, history: seq<Evidence>)

  /** The inputs that are copied into the request as they are. */
  datatype Frame = Frame(event: string, cutoff: int, diameter: real, species: string, seed: int, engine: string, ceiling: int)

  datatype Request = Request(frame: Frame, wood: (Properties, bool), competitors: seq<Payload>)

  // ---------------------------------------------------------------- the sort key

  function ShowAll(printer: Printer, p: Properties): (r: seq<string>)
    ensures |r| == PROPERTY_COUNT
  {
    seq(PROPERTY_COUNT, i requires 0 <= i < PROPERTY_COUNT => printer.number(p[i]))
  }

  /** Every evidence field as text, in field order. */
  function Key(printer: Printer, e: Evidence): seq<string> {
    [e.competitor, e.event, printer.number(e.time), printer.date(e.day), printer.number(e.diameter), e.species, e.gender]
    + ShowAll(printer, e.properties)
    + [if e.speciesMissing then "True" else "False"]
  }

  /** The key covers every field: rows of one evidence with equal keys are equal. */
  lemma KeyIsInjective(printer: Printer, rows: seq<Evidence>, a: Evidence, b: Evidence)
    requires Faithful(printer, rows) && a in rows && b in rows && Key(printer, a) == Key(printer, b)
    ensures a == b
  {
    var x, y := Key(printer, a), Key(printer, b);
    assert x[0] == y[0] && x[1] == y[1] && x[2] == y[2] && x[3] == y[3] && x[4] == y[4] && x[5] == y[5] && x[6] == y[6];
    SameNumber(printer, rows, a, b, a.time, b.time);
    SameNumber(printer, rows, a, b, a.diameter, b.diameter);
    assert DateOccurs(rows, a.day) && DateOccurs(rows, b.day);
    forall i | 0 <= i < PROPERTY_COUNT ensures a.properties[i] == b.properties[i] {
      assert x[7 + i] == y[7 + i];
      SameNumber(printer, rows, a, b, a.properties[i], b.properties[i]);
    }
    assert a.properties == b.properties;
    assert x[13] == y[13];
    assert "True"[0] != "False"[0];
  }

  lemma SameNumber(printer: Printer, rows: seq<Evidence>, a: Evidence, b: Evidence, x: real, y: real)
    requires Faithful(printer, rows) && a in rows && b in rows
    requires HasNumber(a, x) && HasNumber(b, y) && printer.number(x) == printer.number(y)
    ensures x == y
  {
    assert NumberOccurs(rows, x) && NumberOccurs(rows, y);
  }

  function KeyLe(printer: Printer): (Evidence, Evidence) -> bool {
    (a: Evidence, b: Evidence) => StringsLe(Key(printer, a), Key(printer, b))
  }

  lemma KeyOrderIsTotal(printer: Printer)
    ensures TotalPreorder(KeyLe(printer))
  {
    var le := KeyLe(printer);
    forall a, b ensures le(a, b) || le(b, a) {
      StringsLeTotal(Key(printer, a), Key(printer, b));
    }
    forall a, b, c | le(a, b) && le(b, c) ensures le(a, c) {
      StringsLeTransitive(Key(printer, a), Key(printer, b), Key(printer, c));
    }
  }

  /** So the sort has no ties among the rows. */
  lemma KeysDoNotTie(printer: Printer, rows: seq<Evidence>)
    requires Faithful(printer, rows)
    ensures NoTies(KeyLe(printer), rows)
  {
    var le := KeyLe(printer);
    forall a, b | a in rows && b in rows && le(a, b) && le(b, a) ensures a == b {
      StringsLeTotal(Key(printer, a), Key(printer, b));
      KeyIsInjective(printer, rows, a, b);
    }
  }

  // ---------------------------------------------------------------- one competitor

  function ToRow(c: Competitor): Item -> RawRow {
    (item: Item) => RawRow(c.id, item.event, item.time, item.date, item.diameter, item.species, c.gender)
  }

  function RawHistory(c: Competitor): seq<RawRow> {
    Map(ToRow(c), c.history)
  }

  function PayloadOf(printer: Printer, c: Competitor, cutoff: int, table: Table): Payload {
    Payload(c.id, c.gender, c.override, Sort(Accepted(RawHistory(c), cutoff, table), KeyLe(printer)))
  }

  ghost predicate IsTableFor(wood: Option<seq<WoodRow>>, table: Table) {
    if wood.Some? then Tabulates(Usable(wood.value), table) else table == Table(map[], DEFAULTS)
  }

  // ---------------------------------------------------------------- what the request says

  /** A history entry a prediction may use, for a competitor that is identified. */
  function IsUsed(cutoff: int): Item -> bool {
    (item: Item) =>
      && (item.event == "SB" || item.event == "UH")
      && item.time.Some? && item.time.value > 0.0
      && item.diameter.Some? && item.diameter.value > 0.0
      && item.date.Day? && item.date.day < cutoff
  }

  /** The evidence says of the entry what the entry says, and of its competitor what that says. */
  ghost predicate IsEntry(e: Evidence, c: Competitor, item: Item, table: Table) {
    && c.id == Some(e.competitor) && c.gender == e.gender
    && item.event == e.event && item.time == Some(e.time) && item.date == Day(e.day)
    && item.diameter == Some(e.diameter) && item.species == e.species
    && (e.speciesMissing <==> item.species == "__MISSING__" || item.species !in table.lookup)
    && e.properties == if e.speciesMissing then table.pooled else table.lookup[item.species]
  }

  /** The evidence of a competitor, entry by entry: the usable ones in their order. */
  ghost predicate IsHistoryOf(evidence: seq<Evidence>, c: Competitor, cutoff: int, table: Table) {
    if c.id.None? then evidence == []
    else
      && |evidence| == CountIf(IsUsed(cutoff), c.history)
      && forall i | 0 <= i < |c.history| && IsUsed(cutoff)(c.history[i]) ::
           var place := CountIf(IsUsed(cutoff), c.history[..i]);
           place < |evidence| && IsEntry(evidence[place], c, c.history[i], table)
  }

  lemma {:induction false} UsedIsAccepted(c: Competitor, items: seq<Item>, cutoff: int)
    ensures c.id.Some? ==> CountIf(IsAccepted(cutoff), Map(ToRow(c), items)) == CountIf(IsUsed(cutoff), items)
    ensures c.id.None? ==> CountIf(IsAccepted(cutoff), Map(ToRow(c), items)) == 0
  {
    if items != [] {
      UsedIsAccepted(c, items[1..], cutoff);
      AcceptedIff(ToRow(c)(items[0]), cutoff);
      assert Map(ToRow(c), items)[0] == ToRow(c)(items[0]) && Map(ToRow(c), items)[1..] == Map(ToRow(c), items[1..]);
    }
  }

  lemma EvidenceOfHistory(c: Competitor, cutoff: int, table: Table)
    ensures IsHistoryOf(Accepted(RawHistory(c), cutoff, table), c, cutoff, table)
  {
    CountAccepted(RawHistory(c), cutoff, table);
    UsedIsAccepted(c, c.history, cutoff);
    if c.id.Some? {
      forall i | 0 <= i < |c.history| && IsUsed(cutoff)(c.history[i])
        ensures
          var place, evidence := CountIf(IsUsed(cutoff), c.history[..i]), Accepted(RawHistory(c), cutoff, table);
          place < |evidence| && IsEntry(evidence[place], c, c.history[i], table)
      {
        EntryOfHistory(c, cutoff, table, i);
      }
    }
  }

  lemma EntryOfHistory(c: Competitor, cutoff: int, table: Table, i: nat)
    requires c.id.Some? && i < |c.history| && IsUsed(cutoff)(c.history[i])
    ensures
      var place, evidence := CountIf(IsUsed(cutoff), c.history[..i]), Accepted(RawHistory(c), cutoff, table);
      place < |evidence| && IsEntry(evidence[place], c, c.history[i], table)
  {
    AcceptedIff(ToRow(c)(c.history[i]), cutoff);
    EvidenceByPosition(RawHistory(c), cutoff, table, i);
    UsedIsAccepted(c, c.history[..i], cutoff);
    assert c.history == c.history[..i] + c.history[i..];
    MapAppend(ToRow(c), c.history[..i], c.history[i..]);
    assert RawHistory(c)[..i] == Map(ToRow(c), c.history[..i]);
  }

  /** The text of one field of a row, in the order in which the sort compares them. */
  function FieldText(printer: Printer, e: Evidence, n: nat): string
    requires n < 14
  {
    if n == 0 then e.competitor
    else if n == 1 then e.event
    else if n == 2 then printer.number(e.time)
    else if n == 3 then printer.date(e.day)
    else if n == 4 then printer.number(e.diameter)
    else if n == 5 then e.species
    else if n == 6 then e.gender
    else if n < 13 then printer.number(e.properties[n - 7])
    else if e.speciesMissing then "True"
    else "False"
  }

  ghost predicate FirstDifference(printer: Printer, a: Evidence, b: Evidence, n: nat) {
    && n < 14 && StringBefore(FieldText(printer, a, n), FieldText(printer, b, n))
    && forall m | 0 <= m < n :: FieldText(printer, a, m) == FieldText(printer, b, m)
  }

  /** The rows print alike, or the first field whose texts differ has the smaller one in `a`. */
  ghost predicate InOrder(printer: Printer, a: Evidence, b: Evidence) {
    || (forall n | 0 <= n < 14 :: FieldText(printer, a, n) == FieldText(printer, b, n))
    || exists n :: FirstDifference(printer, a, b, n)
  }

  lemma KeyTexts(printer: Printer, e: Evidence, n: nat)
    requires n < 14
    ensures |Key(printer, e)| == 14 && Key(printer, e)[n] == FieldText(printer, e, n)
  {}

  lemma KeyLeIsInOrder(printer: Printer, a: Evidence, b: Evidence)
    requires KeyLe(printer)(a, b)
    ensures InOrder(printer, a, b)
  {
    var x, y := Key(printer, a), Key(printer, b);
    forall n | 0 <= n < 14 ensures x[n] == FieldText(printer, a, n) && y[n] == FieldText(printer, b, n) {
      KeyTexts(printer, a, n);
      KeyTexts(printer, b, n);
    }
    StringsLeIff(x, y);
    if x != y {
      var n: nat :| DiffersAt(x, y, n, (s: string, t: string) => StringLe(s, t));
      assert |x| == 14 == |y|;
      StringLessIff(x[n], y[n]);
      forall m | 0 <= m < n ensures x[m] == y[m] {
        assert x[..n][m] == y[..n][m];
      }
      assert FirstDifference(printer, a, b, n);
    }
  }

  /** The request carries its frame, the properties of the wood's own species, and for every
      competitor, in order, its identity, gender, override and exactly the evidence of its
      usable history entries, in ascending order of their fields' texts. */
  ghost predicate Says(request: Request, printer: Printer, competitors: seq<Competitor>, frame: Frame, table: Table) {
    var (properties, missing) := request.wood;
    && request.frame == frame
    && (missing <==> frame.species == "__MISSING__" || frame.species !in table.lookup)
    && properties == (if missing then table.pooled else table.lookup[frame.species])
    && |request.competitors| == |competitors|
    && forall i | 0 <= i < |competitors| :: SaysOf(request.competitors[i], printer, competitors[i], frame.cutoff, table)
  }

  ghost predicate SaysOf(p: Payload, printer: Printer, c: Competitor, cutoff: int, table: Table) {
    && p.id == c.id && p.gender == c.gender && p.override == c.override
    && (exists evidence :: IsHistoryOf(evidence, c, cutoff, table) && multiset(p.history) == multiset(evidence))
    && forall i, j | 0 <= i < j < |p.history| :: InOrder(printer, p.history[i], p.history[j])
  }

  lemma PayloadSays(printer: Printer, c: Competitor, cutoff: int, table: Table)
    ensures SaysOf(PayloadOf(printer, c, cutoff, table), printer, c, cutoff, table)
  {
    var evidence, le := Accepted(RawHistory(c), cutoff, table), KeyLe(printer);
    var history := Sort(evidence, le);
    KeyOrderIsTotal(printer);
    SortSorts(evidence, le);
    EvidenceOfHistory(c, cutoff, table);
    forall i, j | 0 <= i < j < |history| ensures InOrder(printer, history[i], history[j]) {
      assert le(history[i], history[j]);
      KeyLeIsInOrder(printer, history[i], history[j]);
    }
  }

  lemma RequestSays(printer: Printer, competitors: seq<Competitor>, frame: Frame, table: Table)
    ensures Says(RequestOf(printer, competitors, frame, table), printer, competitors, frame, table)
  {
    forall i | 0 <= i < |competitors|
      ensures SaysOf(RequestOf(printer, competitors, frame, table).competitors[i], printer, competitors[i], frame.cutoff, table)
    {
      PayloadAt(printer, competitors, frame.cutoff, table, i);
      PayloadSays(printer, competitors[i], frame.cutoff, table);
    }
  }

  /** Builds the request competitor by competitor, each history filtered and sorted. */
  method CanonicalActiveV2Request(
      printer: Printer, competitors: seq<Competitor>, frame: Frame, wood: Option<seq<WoodRow>>)
    returns (result: Result<Request, string>)
    ensures result.Err? <==> wood.Some? && Repeats(Usable(wood.value))
    ensures result.Ok? ==>
      exists table :: IsTableFor(wood, table) && result.value == RequestOf(printer, competitors, frame, table)
                      && Says(result.value, printer, competitors, frame, table)
  {
    var lookup := PropertyLookup(wood);
    if lookup.Err? {
      return Err(lookup.error);
    }
    var payloads := BuildPayloads(printer, competitors, frame.cutoff, lookup.value);
    assert IsTableFor(wood, lookup.value);
    result := Ok(Request(frame, Resolve(frame.species, lookup.value), payloads));
    RequestSays(printer, competitors, frame, lookup.value);
    assert result.value == RequestOf(printer, competitors, frame, lookup.value);
  }

  method BuildPayloads(printer: Printer, competitors: seq<Competitor>, cutoff: int, table: Table)
    returns (payloads: seq<Payload>)
    ensures payloads == Payloads(printer, competitors, cutoff, table)
  {
    ghost var build := PayloadFor(printer, cutoff, table);
    payloads := [];
    var i := 0;
    while i < |competitors|
      invariant 0 <= i <= |competitors|
      invariant payloads == Map(build, competitors[..i])
    {
      var payload := BuildPayload(printer, competitors[i], cutoff, table);
      MapNext(build, competitors, i);
      payloads := payloads + [payload];
      i := i + 1;
    }
    assert competitors[..i] == competitors;
  }

  method BuildPayload(printer: Printer, c: Competitor, cutoff: int, table: Table) returns (payload: Payload)
    ensures payload == PayloadFor(printer, cutoff, table)(c)
  {
    var rows, diagnostics := BuildPriorEvidence(RawHistory(c), cutoff, table);
    payload := Payload(c.id, c.gender, c.override, Sort(rows, KeyLe(printer)));
  }

  function PayloadFor(printer: Printer, cutoff: int, table: Table): Competitor -> Payload {
    (c: Competitor) => PayloadOf(printer, c, cutoff, table)
  }

  function Payloads(printer: Printer, competitors: seq<Competitor>, cutoff: int, table: Table): seq<Payload> {
    Map(PayloadFor(printer, cutoff, table), competitors)
  }

  lemma PayloadAt(printer: Printer, competitors: seq<Competitor>, cutoff: int, table: Table, i: nat)
    requires i < |competitors|
    ensures |Payloads(printer, competitors, cutoff, table)| == |competitors|
    ensures Payloads(printer, competitors, cutoff, table)[i] == PayloadOf(printer, competitors[i], cutoff, table)
  {}

  function RequestOf(printer: Printer, competitors: seq<Competitor>, frame: Frame, table: Table): Request {
    Request(frame, Resolve(frame.species, table), Payloads(printer, competitors, frame.cutoff, table))
  }

  // ---------------------------------------------------------------- a normal form

  /** Any arrangement of the same rows gives the same sorted history exactly when no two
      different rows print alike: the key must cover, and print apart, every field that differs. */
  lemma {:induction false} OrderIsForgottenIff(printer: Printer, rows: seq<Evidence>)
    ensures (forall t | multiset(t) == multiset(rows) :: Sort(t, KeyLe(printer)) == Sort(rows, KeyLe(printer))) <==>
            (forall a, b | a in rows && b in rows && Key(printer, a) == Key(printer, b) :: a == b)
  {
    var le := KeyLe(printer);
    KeyOrderIsTotal(printer);
    ArrangementsSortAlikeIff(rows, le);
    forall a, b ensures le(a, b) && le(b, a) <==> Key(printer, a) == Key(printer, b) {
      StringsLeTotal(Key(printer, a), Key(printer, b));
    }
  }

  /** The printer tells apart whatever occurs in one competitor's evidence. */
  ghost predicate FaithfulTo(printer: Printer, competitors: seq<Competitor>, cutoff: int, table: Table) {
    forall c | c in competitors :: Faithful(printer, Accepted(RawHistory(c), cutoff, table))
  }

  function AllEvidence(competitors: seq<Competitor>, cutoff: int, table: Table): seq<Evidence> {
    if competitors == [] then []
    else Accepted(RawHistory(competitors[0]), cutoff, table) + AllEvidence(competitors[1..], cutoff, table)
  }

  lemma {:induction false} EvidenceIsAmongAll(competitors: seq<Competitor>, cutoff: int, table: Table, c: Competitor)
    requires c in competitors
    ensures forall e | e in Accepted(RawHistory(c), cutoff, table) :: e in AllEvidence(competitors, cutoff, table)
  {
    if c != competitors[0] {
      EvidenceIsAmongAll(competitors[1..], cutoff, table, c);
    }
  }

  lemma FewerRowsStayFaithful(printer: Printer, rows: seq<Evidence>, some: seq<Evidence>)
    requires Faithful(printer, rows) && forall e | e in some :: e in rows
    ensures Faithful(printer, some)
  {
    assert forall x | NumberOccurs(some, x) :: NumberOccurs(rows, x);
    assert forall d | DateOccurs(some, d) :: DateOccurs(rows, d);
  }

  /** For every request some printer is faithful. */
  lemma RequestsHaveFaithfulPrinters(competitors: seq<Competitor>, cutoff: int, table: Table)
    ensures exists printer :: FaithfulTo(printer, competitors, cutoff, table)
  {
    var all := AllEvidence(competitors, cutoff, table);
    var printer := TallyPrinter(NumbersOf(all));
    FaithfulPrinterExists(all);
    forall c | c in competitors ensures Faithful(printer, Accepted(RawHistory(c), cutoff, table)) {
      EvidenceIsAmongAll(competitors, cutoff, table, c);
      FewerRowsStayFaithful(printer, all, Accepted(RawHistory(c), cutoff, table));
    }
    assert FaithfulTo(printer, competitors, cutoff, table);
  }

  /** Two histories yield the same payload history exactly when they hold the same evidence,
      each row as often; order is the only thing forgotten. */
  lemma HistoryIsNormalForm(printer: Printer, a: Competitor, b: Competitor, cutoff: int, table: Table)
    requires Faithful(printer, Accepted(RawHistory(a), cutoff, table))
    ensures PayloadOf(printer, a, cutoff, table).history == PayloadOf(printer, b, cutoff, table).history <==>
            multiset(Accepted(RawHistory(a), cutoff, table)) == multiset(Accepted(RawHistory(b), cutoff, table))
  {
    KeyOrderIsTotal(printer);
    KeysDoNotTie(printer, Accepted(RawHistory(a), cutoff, table));
    SortIsNormalForm(Accepted(RawHistory(a), cutoff, table), Accepted(RawHistory(b), cutoff, table), KeyLe(printer));
  }

  function IsPriorItem(cutoff: int): Item -> bool {
    (item: Item) => item.date.Day? && item.date.day < cutoff
  }

  /** The same competitor as far as the day before the cutoff can tell. */
  ghost predicate SamePast(a: Competitor, b: Competitor, cutoff: int) {
    && a.id == b.id && a.gender == b.gender && a.override == b.override
    && multiset(Filter(IsPriorItem(cutoff), a.history)) == multiset(Filter(IsPriorItem(cutoff), b.history))
  }

  lemma {:induction false} PriorItemsArePriorRows(c: Competitor, items: seq<Item>, cutoff: int)
    ensures Filter(IsBefore(cutoff), Map(ToRow(c), items)) == Map(ToRow(c), Filter(IsPriorItem(cutoff), items))
  {
    if items != [] {
      PriorItemsArePriorRows(c, items[1..], cutoff);
      var mapped := Map(ToRow(c), items);
      assert mapped[0] == ToRow(c)(items[0]) && mapped[1..] == Map(ToRow(c), items[1..]);
      if IsPriorItem(cutoff)(items[0]) {
        var kept := Filter(IsPriorItem(cutoff), items);
        assert kept[0] == items[0] && kept[1..] == Filter(IsPriorItem(cutoff), items[1..]);
      }
    }
  }

  lemma SamePastSameEvidence(a: Competitor, b: Competitor, cutoff: int, table: Table)
    requires SamePast(a, b, cutoff)
    ensures multiset(Accepted(RawHistory(a), cutoff, table)) == multiset(Accepted(RawHistory(b), cutoff, table))
  {
    var past, other := Filter(IsPriorItem(cutoff), a.history), Filter(IsPriorItem(cutoff), b.history);
    PriorItemsArePriorRows(a, a.history, cutoff);
    PriorItemsArePriorRows(b, b.history, cutoff);
    SameRows(a, b, other);
    MapForgetsOrder(ToRow(a), past, other);
    FilterForgetsOrder(IsAccepted(cutoff), Map(ToRow(a), past), Map(ToRow(b), other));
    AcceptedForgetsOrder(Map(ToRow(a), past), Map(ToRow(b), other), cutoff, table);
    OnlyPriorRowsMatter(RawHistory(a), cutoff, table);
    OnlyPriorRowsMatter(RawHistory(b), cutoff, table);
  }

  lemma SameRows(a: Competitor, b: Competitor, items: seq<Item>)
    requires a.id == b.id && a.gender == b.gender
    ensures Map(ToRow(a), items) == Map(ToRow(b), items)
  {}

  /** Permuting any history, or adding and removing undated, unreadable, same-day or future
      rows anywhere in it, yields the identical request. */
  lemma SamePastSameRequest(
      printer: Printer, competitors: seq<Competitor>, others: seq<Competitor>, frame: Frame, table: Table)
    requires FaithfulTo(printer, competitors, frame.cutoff, table) && |competitors| == |others|
    requires forall i | 0 <= i < |competitors| :: SamePast(competitors[i], others[i], frame.cutoff)
    ensures RequestOf(printer, competitors, frame, table) == RequestOf(printer, others, frame, table)
  {
    forall i | 0 <= i < |competitors|
      ensures PayloadOf(printer, competitors[i], frame.cutoff, table) == PayloadOf(printer, others[i], frame.cutoff, table)
    {
      SamePastSameEvidence(competitors[i], others[i], frame.cutoff, table);
      HistoryIsNormalForm(printer, competitors[i], others[i], frame.cutoff, table);
    }
    forall i | 0 <= i < |competitors|
      ensures Payloads(printer, competitors, frame.cutoff, table)[i] == Payloads(printer, others, frame.cutoff, table)[i]
    {
      PayloadAt(printer, competitors, frame.cutoff, table, i);
      PayloadAt(printer, others, frame.cutoff, table, i);
    }
    assert Payloads(printer, competitors, frame.cutoff, table) == Payloads(printer, others, frame.cutoff, table);
  }

  /** Nothing else is forgotten: equal requests come from competitors with equal identities,
      overrides and evidence. */
  lemma EqualRequestsIff(
      printer: Printer, competitors: seq<Competitor>, others: seq<Competitor>, frame: Frame, other: Frame, table: Table)
    requires FaithfulTo(printer, competitors, frame.cutoff, table)
    ensures RequestOf(printer, competitors, frame, table) == RequestOf(printer, others, other, table) <==>
      && frame == other
      && |competitors| == |others|
      && forall i | 0 <= i < |competitors| :: SameEvidence(competitors[i], others[i], frame.cutoff, table)
  {
    var x, y := Payloads(printer, competitors, frame.cutoff, table), Payloads(printer, others, frame.cutoff, table);
    if |competitors| == |others| {
      forall i | 0 <= i < |competitors|
        ensures x[i] == y[i] <==> SameEvidence(competitors[i], others[i], frame.cutoff, table)
      {
        HistoryIsNormalForm(printer, competitors[i], others[i], frame.cutoff, table);
        PayloadAt(printer, competitors, frame.cutoff, table, i);
        PayloadAt(printer, others, frame.cutoff, table, i);
      }
      assert x == y <==> forall i | 0 <= i < |competitors| :: x[i] == y[i];
    }
  }

  ghost predicate SameEvidence(a: Competitor, b: Competitor, cutoff: int, table: Table) {
    && a.id == b.id && a.gender == b.gender && a.override == b.override
    && multiset(Accepted(RawHistory(a), cutoff, table)) == multiset(Accepted(RawHistory(b), cutoff, table))
  }
}
