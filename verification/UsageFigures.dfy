/** What a day's rollup computes from the rows it reads (src/db/repositories.ts). */
module UsageFigures {
  import opened Options
  import opened Sorting
  import opened UsageDimensions
  import opened UsageReadings

  const SCAN_LIMIT := 5000
  const FULL_DIMENSION_LIMIT := 9007199254740991
  const TOP_LIMIT := 20

  datatype Figures = Figures(
    activeActors: nat, activeSessions: nat, activeRepos: nat, firstEventAt: Option<int>, lastEventAt: Option<int>,
    bySurface: seq<Count>, byOutcome: seq<Count>, byEvent: seq<Count>, byRepo: seq<Count>,
    byCommand: seq<Count>, byTool: seq<Count>, byRouteClass: seq<Count>)

  function Actors(events: set<Event>): set<string> {
    set e | e in events && NonEmpty(e.actorHash).Some? :: e.actorHash.value
  }

  function Sessions(events: set<Event>): set<string> {
    set e | e in events && NonEmpty(e.sessionHash).Some? :: e.sessionHash.value
  }

  function Repos(events: set<Event>): set<string> {
    set e | e in events && NonEmpty(e.repoFullName).Some? :: e.repoFullName.value
  }

  /** The enumerated dimensions are stored complete, the others cut. */
  function LimitOf(d: Dimension): nat {
    match d
    case BySurface => FULL_DIMENSION_LIMIT
    case ByOutcome => FULL_DIMENSION_LIMIT
    case ByEvent => FULL_DIMENSION_LIMIT
    case _ => TOP_LIMIT
  }

  function StoredList(c: Collation, d: Dimension, rows: seq<Event>): seq<Count> {
    ListOf(c, d, rows, LimitOf(d))
  }

  function FiguresOf(c: Collation, rows: seq<Event>): Figures {
    var events := set e | e in rows;
    Figures(
      |Actors(events)|, |Sessions(events)|, |Repos(events)|,
      if rows == [] then None else Some(rows[0].occurredAt),
      if rows == [] then None else Some(rows[|rows| - 1].occurredAt),
      StoredList(c, BySurface, rows), StoredList(c, ByOutcome, rows), StoredList(c, ByEvent, rows),
      StoredList(c, ByRepo, rows), StoredList(c, ByCommand, rows), StoredList(c, ByTool, rows),
      StoredList(c, ByRouteClass, rows))
  }

  function ListIn(f: Figures, d: Dimension): seq<Count> {
    match d
    case BySurface => f.bySurface case ByOutcome => f.byOutcome case ByEvent => f.byEvent case ByRepo => f.byRepo
    case ByCommand => f.byCommand case ByTool => f.byTool case ByRouteClass => f.byRouteClass
  }

  /** The distinct sets, the two time stamps and the seven lists, each computed from the rows. */
  method ComputeFigures(c: Collation, rows: seq<Event>) returns (f: Figures)
    ensures f == FiguresOf(c, rows)
  {
    var events := set e | e in rows;
    var bySurface := CountDimensions(c, Values(BySurface, rows), FULL_DIMENSION_LIMIT);
    var byOutcome := CountDimensions(c, Values(ByOutcome, rows), FULL_DIMENSION_LIMIT);
    var byEvent := CountDimensions(c, Values(ByEvent, rows), FULL_DIMENSION_LIMIT);
    var byRepo := CountDimensions(c, Values(ByRepo, rows), TOP_LIMIT);
    var byCommand := CountDimensions(c, Values(ByCommand, rows), TOP_LIMIT);
    var byTool := CountDimensions(c, Values(ByTool, rows), TOP_LIMIT);
    var byRouteClass := CountDimensions(c, Values(ByRouteClass, rows), TOP_LIMIT);
    f := Figures(|Actors(events)|, |Sessions(events)|, |Repos(events)|,
                 if rows == [] then None else Some(rows[0].occurredAt),
                 if rows == [] then None else Some(rows[|rows| - 1].occurredAt),
                 bySurface, byOutcome, byEvent, byRepo, byCommand, byTool, byRouteClass);
  }

  // ----- what the figures say of the events -----

  ghost predicate IsFirst(events: set<Event>, at: Option<int>) {
    if at.None? then events == {}
    else (exists e :: e in events && e.occurredAt == at.value) && forall e :: e in events ==> at.value <= e.occurredAt
  }

  ghost predicate IsLast(events: set<Event>, at: Option<int>) {
    if at.None? then events == {}
    else (exists e :: e in events && e.occurredAt == at.value) && forall e :: e in events ==> e.occurredAt <= at.value
  }

  lemma FirstAndLast(rows: seq<Event>)
    requires TimeOrdered(rows)
    ensures IsFirst(Members(rows), if rows == [] then None else Some(rows[0].occurredAt))
    ensures IsLast(Members(rows), if rows == [] then None else Some(rows[|rows| - 1].occurredAt))
  {
    if rows != [] {
      assert rows[0] in Members(rows) && rows[|rows| - 1] in Members(rows);
    } else {
      assert Members(rows) == {};
    }
  }

  /** Distinct actors, sessions and repositories, the outermost instants, and the first entries of a ranking each. */
  lemma FiguresMean(c: Collation, rows: seq<Event>, events: set<Event>)
    requires IsReading(rows, events)
    ensures var f := FiguresOf(c, rows);
      && f.activeActors == |set e | e in events && e.actorHash !in {None, Some("")} :: e.actorHash|
      && f.activeSessions == |set e | e in events && e.sessionHash !in {None, Some("")} :: e.sessionHash|
      && f.activeRepos == |set e | e in events && e.repoFullName !in {None, Some("")} :: e.repoFullName|
      && IsFirst(events, f.firstEventAt) && IsLast(events, f.lastEventAt)
      && forall d: Dimension :: IsTopList(c, d, events, ListIn(f, d))
  {
    hide Ranked, Values, IsRanking, IsFirst, IsLast, ListIn;
    FirstAndLast(rows);
    SomesSize(Actors(events), set e | e in events && e.actorHash !in {None, Some("")} :: e.actorHash);
    SomesSize(Sessions(events), set e | e in events && e.sessionHash !in {None, Some("")} :: e.sessionHash);
    SomesSize(Repos(events), set e | e in events && e.repoFullName !in {None, Some("")} :: e.repoFullName);
    forall d: Dimension ensures IsTopList(c, d, events, ListIn(FiguresOf(c, rows), d)) {
      ReadingIsRanking(c, d, rows, events);
      ListsIn(c, rows, d);
    }
  }

  /** A complete ranking for the enumerated dimensions, its first twenty entries for the others. */
  ghost predicate IsTopList(c: Collation, d: Dimension, events: set<Event>, list: seq<Count>) {
    exists full :: IsRanking(c, d, events, full)
                   && list == if d in {BySurface, ByOutcome, ByEvent} then Top(full, 9007199254740991)
                              else if |full| <= 20 then full else full[..20]
  }

  lemma {:induction false} SomesSize(values: set<string>, somes: set<Option<string>>)
    requires forall x :: x in somes <==> x.Some? && x.value in values
    ensures |somes| == |values|
  {
    if values == {} {
      assert somes == {};
    } else {
      var v :| v in values;
      SomesSize(values - {v}, somes - {Some(v)});
    }
  }

  lemma FirstAndLastUnique(events: set<Event>, a: Option<int>, b: Option<int>, x: Option<int>, y: Option<int>)
    requires IsFirst(events, a) && IsFirst(events, b) && IsLast(events, x) && IsLast(events, y)
    ensures a == b && x == y
  {
  }

  /** In every dimension, values that nothing decides between come after its cut. */
  ghost predicate AllDecided(c: Collation, events: set<Event>) {
    forall d: Dimension :: Decided(c, d, events, LimitOf(d))
  }

  /** All readings of the events give the same figures exactly then. */
  lemma FiguresAgree(c: Collation, events: set<Event>)
    ensures (forall rows, more :: IsReading(rows, events) && IsReading(more, events) ==>
               FiguresOf(c, rows) == FiguresOf(c, more))
            <==> AllDecided(c, events)
  {
    hide IsReading, Decided, FiguresOf;
    if AllDecided(c, events) {
      forall rows, more | IsReading(rows, events) && IsReading(more, events)
        ensures FiguresOf(c, rows) == FiguresOf(c, more)
      {
        DecidedFigures(c, events, rows, more);
      }
    } else {
      var d: Dimension :| !Decided(c, d, events, LimitOf(d));
      ListsAgree(c, d, events, LimitOf(d));
      var rows, more :| IsReading(rows, events) && IsReading(more, events)
                        && ListOf(c, d, rows, LimitOf(d)) != ListOf(c, d, more, LimitOf(d));
      ListsIn(c, rows, d);
      ListsIn(c, more, d);
    }
  }

  lemma ListsIn(c: Collation, rows: seq<Event>, d: Dimension)
    ensures ListIn(FiguresOf(c, rows), d) == ListOf(c, d, rows, LimitOf(d))
  {
    hide ListOf;
  }

  lemma DecidedFigures(c: Collation, events: set<Event>, rows: seq<Event>, more: seq<Event>)
    requires IsReading(rows, events) && IsReading(more, events) && AllDecided(c, events)
    ensures FiguresOf(c, rows) == FiguresOf(c, more)
  {
    hide ListOf, Decided, IsFirst, IsLast;
    FirstAndLast(rows);
    FirstAndLast(more);
    var f, g := FiguresOf(c, rows), FiguresOf(c, more);
    FirstAndLastUnique(events, f.firstEventAt, g.firstEventAt, f.lastEventAt, g.lastEventAt);
    forall d: Dimension ensures StoredList(c, d, rows) == StoredList(c, d, more) {
      DecidedListsAgree(c, d, events, rows, more, LimitOf(d));
    }
  }

  // ----- the three complete lists -----

  /** An event name is never stored empty, so the three enumerated lists account for every event. */
  ghost predicate Named(events: set<Event>) {
    forall e :: e in events ==> e.eventName != ""
  }

  lemma AlwaysValued(e: Event)
    requires e.eventName != ""
    ensures ValueOf(BySurface, e).Some? && ValueOf(ByOutcome, e).Some? && ValueOf(ByEvent, e).Some?
  {
    hide SurfaceName, OutcomeName, RouteClass;
  }

  lemma FullListSums(c: Collation, d: Dimension, rows: seq<Event>, events: set<Event>)
    requires IsReading(rows, events) && |events| <= SCAN_LIMIT && LimitOf(d) == FULL_DIMENSION_LIMIT
    requires forall e :: e in events ==> ValueOf(d, e).Some?
    ensures Sum(StoredList(c, d, rows)) == |events|
  {
    hide Ranked, Values, IsReading, IsRanking;
    var full := Ranked(c, Values(d, rows));
    ReadingIsRanking(c, d, rows, events);
    RankingSums(c, d, events, full);
    RankingFits(c, d, rows, events);
    assert Having(d, events) == events;
  }

  lemma SumsOf(c: Collation, rows: seq<Event>, events: set<Event>)
    requires IsReading(rows, events) && Named(events) && |events| <= SCAN_LIMIT
    ensures var f := FiguresOf(c, rows); Sum(f.bySurface) == Sum(f.byOutcome) == Sum(f.byEvent) == |events|
  {
    hide ValueOf, IsReading, StoredList, Sum;
    forall e | e in events
      ensures ValueOf(BySurface, e).Some? && ValueOf(ByOutcome, e).Some? && ValueOf(ByEvent, e).Some?
    {
      AlwaysValued(e);
    }
    FullListSums(c, BySurface, rows, events);
    FullListSums(c, ByOutcome, rows, events);
    FullListSums(c, ByEvent, rows, events);
  }
}
