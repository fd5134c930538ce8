/**
 The usage event ledger, its daily rollups, and the status that says whether the rollups can be
 trusted (src/db/repositories.ts). The rollup is a cache of the raw events; the status must not call it
 good when it is not.
*/
module UsageLedger {
  import opened Instants
  import opened Options
  import opened Sorting
  import opened Sequences
  import opened UsageDimensions
  import opened UsageReadings
  import opened UsageFigures
  import Retention

  /** The retention rule of the event table. */
  const EVENT_RULE := Retention.RETENTION_POLICY[2]
  const RETENTION_DAYS := EVENT_RULE.days

  datatype RollupStatus = Complete | Partial | Incomplete

  datatype Rollup = Rollup(
    day: int, status: RollupStatus, totalEvents: nat, sourceEventCount: nat, figures: Figures, generatedAt: int)

  function EventsOn(events: set<Event>, day: int): set<Event> {
    set e | e in events && DayOf(e.occurredAt) == day
  }

  /** The record holds the totals and the figures of a reading of exactly these events. */
  ghost predicate Summarises(c: Collation, r: Rollup, events: set<Event>) {
    && r.totalEvents == r.sourceEventCount == |events|
    && exists rows :: IsReading(rows, events) && r.figures == FiguresOf(c, rows)
  }

  lemma SummarySums(c: Collation, r: Rollup, events: set<Event>)
    requires Summarises(c, r, events) && Named(events) && |events| <= SCAN_LIMIT
    ensures Sum(r.figures.bySurface) == Sum(r.figures.byOutcome) == Sum(r.figures.byEvent) == |events|
  {
    hide FiguresOf, IsReading, Named, Sum;
    var rows :| IsReading(rows, events) && r.figures == FiguresOf(c, rows);
    SumsOf(c, rows, events);
  }

  /** Where every value is decided, the record holds what any recomputation gives. */
  lemma SummaryUnique(c: Collation, r: Rollup, events: set<Event>, rows: seq<Event>)
    requires Summarises(c, r, events) && AllDecided(c, events) && IsReading(rows, events)
    ensures r.figures == FiguresOf(c, rows)
  {
    hide FiguresOf, IsReading, AllDecided;
    FiguresAgree(c, events);
  }

  // ----- the status -----

  /** The days after lo up to hi. */
  function Days(lo: int, hi: int): set<int>
    decreases hi - lo
  {
    if lo < hi then Days(lo, hi - 1) + {hi} else {}
  }

  lemma NextDay(lo: int, d: int)
    requires lo < d
    ensures Days(lo, d) == Days(lo, d - 1) + {d}
  {
  }

  lemma {:induction false} DaysAre(lo: int, hi: int)
    ensures forall d :: d in Days(lo, hi) <==> lo < d <= hi
    ensures |Days(lo, hi)| == if lo < hi then hi - lo else 0
    decreases hi - lo
  {
    if lo < hi {
      DaysAre(lo, hi - 1);
    }
  }

  datatype Status = Empty | Stale | Lacking | Current | Ready

  function Clamp(x: int, lo: int, hi: int): int {
    if x < lo then lo else if x > hi then hi else x
  }

  /** The given number of days, but at least one and at most thirty-one. */
  lemma LookbackLength(lookbackDays: int)
    ensures 1 <= lookbackDays <= 31 ==> Clamp(lookbackDays, 1, 31) == lookbackDays
    ensures lookbackDays < 1 ==> Clamp(lookbackDays, 1, 31) == 1
    ensures lookbackDays > 31 ==> Clamp(lookbackDays, 1, 31) == 31
  {
  }

  function SinceDay(now: int, lookbackDays: int): int {
    DayOf(now) - (Clamp(lookbackDays, 1, 31) - 1)
  }

  /** The lookback is today and fewer days back than it is long. */
  lemma SinceIsLookback(day: int, now: int, lookbackDays: int)
    ensures day >= SinceDay(now, lookbackDays) <==> DayOf(now) - day < Clamp(lookbackDays, 1, 31)
  {
  }

  /** `where day >= since order by day desc limit n`. */
  function Fetched(rollups: map<int, Rollup>, since: int, limit: nat): map<int, Rollup> {
    map d | d in rollups && d >= since && |set x | x in rollups && x > d| < limit :: rollups[d]
  }

  function EventDays(events: set<Event>, since: int): set<int> {
    set e | e in events && DayOf(e.occurredAt) >= since :: DayOf(e.occurredAt)
  }

  /** Some event is newer than the latest fetched rollup. */
  predicate NewerThanLatest(events: set<Event>, fetched: map<int, Rollup>) {
    exists d :: d in fetched && (forall x :: x in fetched ==> x <= d)
                && exists e :: e in events && e.occurredAt > fetched[d].generatedAt
  }

  /** Event days whose rollup counted another number of events. */
  function StaleDays(events: set<Event>, fetched: map<int, Rollup>, since: int): set<int> {
    set d | d in EventDays(events, since) && d in fetched && fetched[d].sourceEventCount != |EventsOn(events, d)|
  }

  function MissingDays(events: set<Event>, fetched: map<int, Rollup>, since: int): set<int> {
    EventDays(events, since) - fetched.Keys
  }

  /** The name `incomplete` of the source covers missing and capped days; `partial` is `Current` here. */
  function StatusOf(events: set<Event>, rollups: map<int, Rollup>, now: int, lookbackDays: int): Status {
    var lookback := Clamp(lookbackDays, 1, 31);
    var since := SinceDay(now, lookbackDays);
    var fetched := Fetched(rollups, since, lookback + 1);
    if events == {} then Empty
    else if StaleDays(events, fetched, since) != {} || NewerThanLatest(events, fetched) then Stale
    else if MissingDays(events, fetched, since) != {} then Lacking
    else if SomeStatus(fetched, Incomplete) then Lacking
    else if SomeStatus(fetched, Partial) then Current
    else Ready
  }

  // ----- the ledger as a state machine -----

  /** snapshots is history: the events each stored rollup was computed from. */
  datatype Ledger = Ledger(events: set<Event>, rollups: map<int, Rollup>, snapshots: map<int, set<Event>>, clock: int)

  /** What a rollup of a day writes, when the day holds these events: a capped scan sees the first rows only. */
  ghost predicate Written(c: Collation, r: Rollup, day: int, events: set<Event>, now: int) {
    && r.day == day && r.generatedAt == now && r.totalEvents == r.sourceEventCount == |events|
    && r.status == StatusWritten(day, |events|, now)
    && exists rows :: IsReading(rows, events) && r.figures == FiguresOf(c, Top(rows, SCAN_LIMIT))
  }

  function StatusWritten(day: int, count: nat, now: int): RollupStatus {
    if count > SCAN_LIMIT then Incomplete else if day == DayOf(now) then Partial else Complete
  }

  lemma ReadingSize(rows: seq<Event>, events: set<Event>)
    requires IsReading(rows, events)
    ensures |rows| == |events|
  {
    MembersSize(rows);
  }

  lemma WrittenSummarises(c: Collation, r: Rollup, day: int, events: set<Event>, now: int)
    requires Written(c, r, day, events, now)
    ensures r.status == Incomplete <==> |events| > 5000
    ensures |events| <= 5000 ==> Summarises(c, r, events)
  {
    hide FiguresOf, IsReading;
    var rows :| IsReading(rows, events) && r.figures == FiguresOf(c, Top(rows, SCAN_LIMIT));
    ReadingSize(rows, events);
  }

  ghost predicate Append(s: Ledger, t: Ledger) {
    exists e: Event ::
      && (forall x: Event :: x in s.events ==> x.id != e.id) && e.eventName != ""
      && t == s.(events := s.events + {e}, clock := t.clock)
  }

  function RolledUpOnce(s: Ledger, day: int, r: Rollup, clock: int): Ledger {
    s.(rollups := s.rollups[day := r], snapshots := s.snapshots[day := EventsOn(s.events, day)], clock := clock)
  }

  ghost predicate RollUp(c: Collation, s: Ledger, t: Ledger) {
    exists day: int, r: Rollup :: Written(c, r, day, EventsOn(s.events, day), t.clock)
      && t == RolledUpOnce(s, day, r, t.clock)
  }

  /** A prune may take any of the expired events. */
  ghost predicate Prune(s: Ledger, t: Ledger) {
    exists gone: set<Event> ::
      gone <= s.events && (forall e :: e in gone ==> e.occurredAt < t.clock - RETENTION_DAYS * MS_PER_DAY)
      && t == s.(events := s.events - gone, clock := t.clock)
  }

  ghost predicate Next(c: Collation, s: Ledger, t: Ledger) {
    s.clock <= t.clock && (Append(s, t) || RollUp(c, s, t) || Prune(s, t))
  }

  predicate IsEmpty(s: Ledger) {
    s.events == {} && s.rollups == map[] && s.snapshots == map[]
  }

  ghost predicate IsRun(c: Collation, run: seq<Ledger>) {
    && run != [] && IsEmpty(run[0])
    && forall i :: 0 <= i < |run| - 1 ==> Next(c, run[i], run[i + 1])
  }

  /** The whole day is too recent for any prune so far. */
  predicate OutOfPruneReach(day: int, clock: int) {
    day * MS_PER_DAY >= clock - RETENTION_DAYS * MS_PER_DAY
  }

  ghost predicate Faithful(c: Collation, r: Rollup, day: int, events: set<Event>) {
    && r.day == day && r.sourceEventCount == |events|
    && (r.status != Incomplete ==> |events| <= SCAN_LIMIT && Summarises(c, r, events))
  }

  ghost predicate Inv(c: Collation, s: Ledger) {
    && Named(s.events)
    && s.rollups.Keys == s.snapshots.Keys
    && (forall d :: d in s.rollups ==> Faithful(c, s.rollups[d], d, s.snapshots[d]))
    && (forall d :: d in s.rollups && OutOfPruneReach(d, s.clock) ==> s.snapshots[d] <= EventsOn(s.events, d))
  }

  // ----- the prune is that of the retention job -----

  lemma EventRule()
    ensures EVENT_RULE == Retention.Rule("product_usage_events", "occurred_at", 180)
  {
  }

  /** The table holds these events, one in a row. */
  ghost predicate Holds(t: Retention.Table, at: map<int, Event>) {
    && (forall id :: id in t ==> id in at)
    && (forall id :: id in t ==> EVENT_RULE.column in t[id] && t[id][EVENT_RULE.column] == at[id].occurredAt)
    && forall i, j :: i in t && j in t && i != j ==> at[i] != at[j]
  }

  function EventsIn(t: Retention.Table, at: map<int, Event>): set<Event> {
    set id | id in t && id in at :: at[id]
  }

  function EventCutoff(now: int): int {
    Retention.Cutoff(EVENT_RULE.days, now)
  }

  lemma Subtraction(before: Retention.Table, gone: set<int>, at: map<int, Event>)
    requires Holds(before, at) && gone <= before.Keys
    ensures Holds(before - gone, at)
    ensures EventsIn(before - gone, at) == EventsIn(before, at) - (set id | id in gone :: at[id])
  {
  }

  /** What the retention job does to the event table is a prune of the ledger. */
  lemma PruneStepIsPrune(s: Ledger, before: Retention.Table, after: Retention.Table, at: map<int, Event>, now: int,
                         deleted: int)
    requires Holds(before, at) && s.events == EventsIn(before, at)
    requires Retention.PruneStep(before, after, EVENT_RULE.column, EventCutoff(now), deleted)
    ensures Holds(after, at) && Prune(s, s.(events := EventsIn(after, at), clock := now))
  {
    var rows := before.Keys - after.Keys;
    Subtraction(before, rows, at);
    GoneAreExpired(before, rows, at, now);
    hide Holds, EventsIn, Retention.Expired, Retention.PruneStep;
    var gone := set id | id in rows :: at[id];
    assert gone <= s.events;
  }

  lemma GoneAreExpired(before: Retention.Table, rows: set<int>, at: map<int, Event>, now: int)
    requires Holds(before, at) && rows <= Retention.Expired(before, EVENT_RULE.column, EventCutoff(now))
    ensures forall id :: id in rows ==> id in at && at[id].occurredAt < now - RETENTION_DAYS * MS_PER_DAY
  {
  }

  lemma PruneMissesRecentDays(day: int, e: Event, clock: int)
    requires OutOfPruneReach(day, clock) && DayOf(e.occurredAt) == day
    ensures !(e.occurredAt < clock - RETENTION_DAYS * MS_PER_DAY)
  {
  }

  lemma AppendKeepsInv(c: Collation, s: Ledger, t: Ledger)
    requires Inv(c, s) && s.clock <= t.clock && Append(s, t)
    ensures Inv(c, t)
  {
    hide Summarises;
  }

  lemma WrittenIsFaithful(c: Collation, r: Rollup, day: int, events: set<Event>, now: int)
    requires Written(c, r, day, events, now)
    ensures Faithful(c, r, day, events)
  {
    hide Summarises;
    WrittenSummarises(c, r, day, events, now);
  }

  lemma RollUpKeepsInv(c: Collation, s: Ledger, t: Ledger)
    requires Inv(c, s) && s.clock <= t.clock && RollUp(c, s, t)
    ensures Inv(c, t)
  {
    hide Summarises, Written;
    var day: int, r: Rollup :| Written(c, r, day, EventsOn(s.events, day), t.clock)
      && t == RolledUpOnce(s, day, r, t.clock);
    WrittenIsFaithful(c, r, day, EventsOn(s.events, day), t.clock);
  }

  lemma PruneKeepsInv(c: Collation, s: Ledger, t: Ledger)
    requires Inv(c, s) && s.clock <= t.clock && Prune(s, t)
    ensures Inv(c, t)
  {
    hide Summarises;
    forall d | d in t.rollups && OutOfPruneReach(d, t.clock)
      ensures t.snapshots[d] <= EventsOn(t.events, d)
    {
      forall e | e in t.snapshots[d] ensures e in EventsOn(t.events, d) {
        assert e in EventsOn(s.events, d);
        PruneMissesRecentDays(d, e, t.clock);
      }
    }
  }

  lemma NextKeepsInv(c: Collation, s: Ledger, t: Ledger)
    requires Inv(c, s) && Next(c, s, t)
    ensures Inv(c, t)
  {
    hide Append, RollUp, Prune, Inv;
    if Append(s, t) {
      AppendKeepsInv(c, s, t);
    } else if RollUp(c, s, t) {
      RollUpKeepsInv(c, s, t);
    } else {
      PruneKeepsInv(c, s, t);
    }
  }

  lemma {:induction false} RunKeepsInv(c: Collation, run: seq<Ledger>, i: nat)
    requires IsRun(c, run) && i < |run|
    ensures Inv(c, run[i])
  {
    if i > 0 {
      RunKeepsInv(c, run, i - 1);
      NextKeepsInv(c, run[i - 1], run[i]);
    }
  }

  lemma LookbackIsProtected(now: int, lookbackDays: int, day: int)
    requires DayOf(now) - day < Clamp(lookbackDays, 1, 31)
    ensures OutOfPruneReach(day, now)
  {
  }

  /** What a good status promises about the day of an event. */
  ghost predicate Agrees(c: Collation, s: Ledger, day: int) {
    var raw := set e | e in s.events && DayOf(e.occurredAt) == day;
    && day in s.rollups && s.rollups[day].day == day
    && Summarises(c, s.rollups[day], raw)
    && var figures := s.rollups[day].figures;
       && Sum(figures.bySurface) == Sum(figures.byOutcome) == Sum(figures.byEvent) == |raw|
       && (AllDecided(c, raw) ==> forall rows :: IsReading(rows, raw) ==> figures == FiguresOf(c, rows))
  }

  /** A day whose count still agrees is summarised from exactly the events it has now. */
  lemma SameCountSameEvents(c: Collation, s: Ledger, day: int)
    requires Inv(c, s) && day in s.rollups && OutOfPruneReach(day, s.clock)
    requires s.rollups[day].sourceEventCount == |EventsOn(s.events, day)| && s.rollups[day].status != Incomplete
    ensures Agrees(c, s, day)
  {
    hide Summarises, AllDecided, IsReading, FiguresOf;
    var current, counted, r := EventsOn(s.events, day), s.snapshots[day], s.rollups[day];
    SubsetOfSameSize(counted, current);
    SummarySums(c, r, current);
    forall rows | AllDecided(c, current) && IsReading(rows, current) ensures r.figures == FiguresOf(c, rows) {
      SummaryUnique(c, r, current, rows);
    }
  }

  lemma SubsetOfSameSize<T>(a: set<T>, b: set<T>)
    requires a <= b && |a| == |b|
    ensures a == b
  {
    assert b == a + (b - a);
    assert |b - a| == 0;
  }

  /**
   In every run, a status of ready or partial means that each day of the lookback with events has a stored rollup equal
   to a recomputation from a reading of the current raw events, and to every recomputation where all values are decided.
  */
  lemma GoodStatusIsTrue(c: Collation, run: seq<Ledger>, i: nat, now: int, lookbackDays: int, e: Event)
    requires IsRun(c, run) && i < |run| && run[i].clock <= now
    requires StatusOf(run[i].events, run[i].rollups, now, lookbackDays) in {Ready, Current}
    requires e in run[i].events && DayOf(now) - DayOf(e.occurredAt) < Clamp(lookbackDays, 1, 31)
    ensures Agrees(c, run[i], DayOf(e.occurredAt))
  {
    var s, day := run[i], DayOf(e.occurredAt);
    assert e in EventsOn(s.events, day);
    RunKeepsInv(c, run, i);
    hide Inv, Agrees, IsRun;
    LookbackIsProtected(now, lookbackDays, day);
    GoodDay(s.events, s.rollups, now, lookbackDays, day);
    SameCountSameEvents(c, s, day);
  }

  lemma GoodDay(events: set<Event>, rollups: map<int, Rollup>, now: int, lookbackDays: int, day: int)
    requires StatusOf(events, rollups, now, lookbackDays) in {Ready, Current}
    requires DayOf(now) - day < Clamp(lookbackDays, 1, 31) && EventsOn(events, day) != {}
    ensures day in rollups && rollups[day].sourceEventCount == |EventsOn(events, day)|
            && rollups[day].status != Incomplete
  {
    hide NewerThanLatest, EventsOn, SinceDay;
    var since := SinceDay(now, lookbackDays);
    var fetched := Fetched(rollups, since, Clamp(lookbackDays, 1, 31) + 1);
    SinceIsLookback(day, now, lookbackDays);
    IsEventDay(events, since, day);
    assert day !in MissingDays(events, fetched, since) && day !in StaleDays(events, fetched, since);
  }

  lemma IsEventDay(events: set<Event>, since: int, day: int)
    requires day >= since && EventsOn(events, day) != {}
    ensures day in EventDays(events, since)
  {
    var e :| e in EventsOn(events, day);
  }

  // ----- the operations -----

  /** The named days are written as of now; every other rollup is as it was. */
  ghost predicate RolledUp(c: Collation, start: map<int, Rollup>, rollups: map<int, Rollup>, named: set<int>,
                           events: set<Event>, now: int)
  {
    && rollups.Keys == start.Keys + named
    && (forall d :: d in start && d !in named ==> rollups[d] == start[d])
    && (forall d :: d in named ==> Written(c, rollups[d], d, EventsOn(events, d), now))
  }

  lemma NothingRolledUp(c: Collation, start: map<int, Rollup>, lo: int, events: set<Event>, now: int)
    ensures RolledUp(c, start, start, Days(lo, lo), events, now)
  {
  }

  lemma OneMoreRolledUp(c: Collation, start: map<int, Rollup>, rollups: map<int, Rollup>, named: set<int>, d: int,
                        r: Rollup, events: set<Event>, now: int)
    requires RolledUp(c, start, rollups, named, events, now) && Written(c, r, d, EventsOn(events, d), now)
    ensures RolledUp(c, start, rollups[d := r], named + {d}, events, now)
  {
    hide Written, EventsOn;
  }

  /** The days a rollup run goes over. */
  function FirstRequested(day: Option<Option<int>>, now: int, count: int): (d: int)
    ensures d <= LastRequested(day, now)
  {
    if day.Some? then LastRequested(day, now) else DayOf(now) - (Clamp(count, 1, 31) - 1)
  }

  function LastRequested(day: Option<Option<int>>, now: int): int {
    if day.Some? && day.value.Some? then day.value.value else DayOf(now)
  }

  function Requested(day: Option<Option<int>>, now: int, count: int): set<int> {
    Days(FirstRequested(day, now, count) - 1, LastRequested(day, now))
  }

  class UsageDb {
    const collation: Collation
    var events: set<Event>
    var rollups: map<int, Rollup>
    ghost var snapshots: map<int, set<Event>>
    ghost var clock: int

    ghost function State(): Ledger
      reads this
    {
      Ledger(events, rollups, snapshots, clock)
    }

    constructor (collation: Collation, now: int)
      ensures IsEmpty(State()) && clock == now && this.collation == collation
    {
      this.collation := collation;
      events, rollups, snapshots, clock := {}, map[], map[], now;
    }

    /** A random id never repeats one that is in the table. */
    method RecordProductUsageEvent(e: Event, now: int)
      requires clock <= now && e.eventName != "" && forall x :: x in events ==> x.id != e.id
      modifies this
      ensures Next(collation, old(State()), State()) && clock == now
      ensures events == old(events) + {e} && rollups == old(rollups)
    {
      ghost var before := State();
      events := events + {e};
      clock := now;
      assert Append(before, State());
    }

    /** The first rows of some reading of the day, at most one more than the scan limit. */
    method SelectDay(day: int) returns (rows: seq<Event>)
      ensures exists all :: IsReading(all, EventsOn(events, day)) && rows == Top(all, 5001)
    {
      hide EventsOn, Started, IsReading;
      var rest := EventsOn(events, day);
      rows := [];
      NothingRead(rest);
      while rest != {} && |rows| <= SCAN_LIMIT
        invariant |rows| <= SCAN_LIMIT + 1 && Started(rows, rest, EventsOn(events, day))
        decreases rest
      {
        var rank := (e: Event) => e.occurredAt;
        SomeLowest(rest, rank);
        var e :| e in rest && forall x :: x in rest ==> rank(e) <= rank(x);
        RowRead(rows, e, rest, EventsOn(events, day));
        rows, rest := rows + [e], rest - {e};
      }
      ghost var more := SomeReading(rest);
      ReadingsJoin(rows, more, rest, EventsOn(events, day));
      ReadingSize(more, rest);
      assert (rows + more)[..|rows|] == rows && (more == [] ==> rows + more == rows);
      assert rows == Top(rows + more, SCAN_LIMIT + 1);
    }

    method UpsertProductUsageDailyRollup(day: int, now: int) returns (record: Rollup)
      requires clock <= now
      modifies this
      ensures Next(collation, old(State()), State()) && clock == now && events == old(events)
      ensures Written(collation, record, day, EventsOn(events, day), now) && rollups == old(rollups)[day := record]
    {
      hide EventsOn, IsReading, FiguresOf;
      ghost var before := State();
      var sourceEventCount := |EventsOn(events, day)|;
      var rows := SelectDay(day);
      ghost var all :| IsReading(all, EventsOn(events, day)) && rows == Top(all, SCAN_LIMIT + 1);
      WholeDayOrCapped(rows, all, EventsOn(events, day));
      var capped := |rows| > SCAN_LIMIT || sourceEventCount > SCAN_LIMIT;
      record := BuildRecord(collation, day, now, sourceEventCount, capped, Top(rows, SCAN_LIMIT));
      rollups := rollups[day := record];
      snapshots := snapshots[day := EventsOn(events, day)];
      clock := now;
      ghost var after := State();
      assert Written(collation, record, day, EventsOn(before.events, day), after.clock);
      assert after == RolledUpOnce(before, day, record, after.clock);
      assert RollUp(collation, before, after);
    }

    /**
     `rollupProductUsageDaily`: the named day, or the last days up to today, then the status. A name that is no date
     (None inside) stands for today.
    */
    method RollupProductUsageDaily(day: Option<Option<int>>, now: int, count: int) returns (report: Report)
      requires clock <= now
      modifies this
      ensures events == old(events) && clock == now
      ensures RolledUp(collation, old(rollups), rollups, Requested(day, now, count), events, now)
      ensures report.status == StatusOf(events, rollups, now, 14) && IsReport(report, events, rollups, now, 14)
      ensures old(Inv(collation, State())) ==> Inv(collation, State())
    {
      hide Written, Next, Inv, RolledUp, StatusOf, IsReport;
      var first, last := FirstRequested(day, now, count), LastRequested(day, now);
      ghost var start := rollups;
      NothingRolledUp(collation, start, first - 1, events, now);
      for d := first to last + 1
        invariant events == old(events) && clock <= now && (d > first ==> clock == now)
        invariant RolledUp(collation, start, rollups, Days(first - 1, d - 1), events, now)
        invariant old(Inv(collation, State())) ==> Inv(collation, State())
      {
        ghost var before := State();
        var record := UpsertProductUsageDailyRollup(d, now);
        OneMoreRolledUp(collation, start, before.rollups, Days(first - 1, d - 1), d, record, events, now);
        NextDay(first - 1, d);
        if Inv(collation, before) { NextKeepsInv(collation, before, State()); }
      }
      report := GetProductUsageRollupStatus(now, 14);
    }

    /** The retention job's loop over the event table, whose rows hold the events. */
    method PruneExpired(db: Retention.Database, at: map<int, Event>, now: int, batchSize: int, maxPerTable: int)
      returns (deleted: nat)
      requires clock <= now && Retention.RuleEnds(db.tables, EVENT_RULE, now, batchSize, maxPerTable)
      requires EVENT_RULE.table in db.tables && Holds(db.tables[EVENT_RULE.table], at)
      requires events == EventsIn(db.tables[EVENT_RULE.table], at)
      modifies this, db`tables
      ensures EVENT_RULE.table in db.tables && Holds(db.tables[EVENT_RULE.table], at)
      ensures events == EventsIn(db.tables[EVENT_RULE.table], at)
      ensures Next(collation, old(State()), State()) && clock == now && rollups == old(rollups)
      ensures var expired := Retention.ExpiredIn(old(db.tables), EVENT_RULE.table, EVENT_RULE.column, EventCutoff(now));
        deleted == Retention.Reach(expired, batchSize, maxPerTable)
    {
      hide Holds, EventsIn, Retention.PruneStep, Prune;
      ghost var before, rows := State(), db.tables[EVENT_RULE.table];
      deleted := db.PruneTable(EVENT_RULE.table, EVENT_RULE.column, EventCutoff(now), batchSize, maxPerTable);
      PruneStepIsPrune(before, rows, db.tables[EVENT_RULE.table], at, now, deleted);
      events := EventsIn(db.tables[EVENT_RULE.table], at);
      clock := now;
      assert Prune(before, State());
    }

    /** `where day >= fromDay order by day desc limit n`, as the days of the rows. */
    method ListRollupDays(fromDay: int, limit: nat) returns (days: seq<int>)
      ensures Descending(days) && forall d :: d in days <==> d in Fetched(rollups, fromDay, limit)
    {
      hide Fetched;
      var rest := set d | d in rollups && d >= fromDay;
      days := [];
      while rest != {} && |days| < limit
        invariant Descending(days) && |days| <= limit
        invariant forall d :: d in rest || d in days <==> d in rollups && d >= fromDay
        invariant forall d, i :: d in rest && 0 <= i < |days| ==> d < days[i]
        decreases rest
      {
        var rank := (d: int) => -d;
        SomeLowest(rest, rank);
        var d :| d in rest && forall x :: x in rest ==> rank(d) <= rank(x);
        days, rest := days + [d], rest - {d};
      }
      ListedAreFetched(rollups, fromDay, limit, days, rest);
    }

    /** Reads the newest event, the rollups and the grouped raw counts, and judges by them. */
    method GetProductUsageRollupStatus(now: int, lookbackDays: int) returns (report: Report)
      ensures report.status == StatusOf(events, rollups, now, lookbackDays)
      ensures IsReport(report, events, rollups, now, lookbackDays)
    {
      hide Fetched, EventDays, EventsOn, SinceDay, IsLast, IsJudgement;
      var lookback, sinceDay := Clamp(lookbackDays, 1, 31), SinceDay(now, lookbackDays);
      FetchedIsStored(rollups, sinceDay, lookback + 1);
      var latestEventAt := LatestEventAt();
      var days := ListRollupDays(sinceDay, lookback + 1);
      var rollupByDay := map d | d in days :: rollups[d];
      var eventDayCounts := map d | d in EventDays(events, sinceDay) :: |EventsOn(events, d)|;
      report := Judge(latestEventAt, days, rollupByDay, eventDayCounts);
      SameEntries(rollupByDay, Fetched(rollups, sinceDay, lookback + 1));
      JudgementIsReport(report, events, rollups, now, lookbackDays, eventDayCounts);
    }

    /** `order by occurred_at desc limit 1`. */
    method LatestEventAt() returns (at: Option<int>)
      ensures IsLast(events, at)
    {
      if events == {} {
        return None;
      }
      var rank := (e: Event) => -e.occurredAt;
      SomeLowest(events, rank);
      var e :| e in events && forall x :: x in events ==> rank(e) <= rank(x);
      return Some(e.occurredAt);
    }
  }

  // ----- what the status query reports -----

  /** The status and the days behind it. */
  datatype Report = Report(
    status: Status, latestEventAt: Option<int>, missingDays: seq<int>, staleDays: seq<int>, incompleteDays: seq<int>)

  predicate Rising(days: seq<int>) {
    forall i, j :: 0 <= i < j < |days| ==> days[i] < days[j]
  }

  predicate Descending(days: seq<int>) {
    forall i, j :: 0 <= i < j < |days| ==> days[i] > days[j]
  }

  /** The lists are the bad days of their kind; staleness also names the day of an event newer than every rollup. */
  ghost predicate IsReport(report: Report, events: set<Event>, rollups: map<int, Rollup>, now: int, lookbackDays: int) {
    var since := SinceDay(now, lookbackDays);
    var fetched := Fetched(rollups, since, Clamp(lookbackDays, 1, 31) + 1);
    && IsLast(events, report.latestEventAt)
    && Rising(report.missingDays) && (forall d :: d in report.missingDays <==> d in MissingDays(events, fetched, since))
    && Rising(report.staleDays)
    && (forall d :: d in report.staleDays <==>
          || d in StaleDays(events, fetched, since)
          || (NewerThanLatest(events, fetched) && d == DayOf(report.latestEventAt.value)))
    && Descending(report.incompleteDays)
    && (forall d :: d in report.incompleteDays <==> d in fetched && fetched[d].status == Incomplete)
  }

  /** What the lists say in terms of the rows that were read: the newest event, the rollups by day, the raw counts. */
  ghost predicate IsJudgement(report: Report, fetched: map<int, Rollup>, counts: map<int, nat>) {
    var at := report.latestEventAt;
    && Rising(report.missingDays) && (forall d :: d in report.missingDays <==> d in counts && d !in fetched)
    && Rising(report.staleDays)
    && (forall d :: d in report.staleDays <==>
          || (d in counts && d in fetched && fetched[d].sourceEventCount != counts[d])
          || (NewerThan(at, fetched) && d == DayOf(at.value)))
    && Descending(report.incompleteDays)
    && (forall d :: d in report.incompleteDays <==> d in fetched && fetched[d].status == Incomplete)
    && report.status
       == if at.None? then Empty
          else if |report.staleDays| > 0 then Stale
          else if |report.missingDays| > 0 || |report.incompleteDays| > 0 then Lacking
          else if SomeStatus(fetched, Partial) then Current
          else Ready
  }

  predicate SomeStatus(fetched: map<int, Rollup>, status: RollupStatus) {
    exists d :: d in fetched && fetched[d].status == status
  }

  predicate NewerThan(at: Option<int>, fetched: map<int, Rollup>) {
    at.Some? && exists d :: d in fetched && (forall x :: x in fetched ==> x <= d) && at.value > fetched[d].generatedAt
  }

  method Judge(latestEventAt: Option<int>, days: seq<int>, rollupByDay: map<int, Rollup>, eventDayCounts: map<int, nat>)
    returns (report: Report)
    requires Descending(days) && forall d :: d in days <==> d in rollupByDay
    ensures report.latestEventAt == latestEventAt && IsJudgement(report, rollupByDay, eventDayCounts)
  {
    hide DayOf, NewerThan, Rising, Descending, Filter, SomeStatus;
    var eventDays := SortedDays(eventDayCounts.Keys);
    var isMissing := (d: int) => d !in rollupByDay;
    var isIncomplete := (d: int) => d in rollupByDay && rollupByDay[d].status == Incomplete;
    var isPartial := (d: int) => d in rollupByDay && rollupByDay[d].status == Partial;
    var isChanged := (d: int) =>
      d in rollupByDay && d in eventDayCounts && rollupByDay[d].sourceEventCount != eventDayCounts[d];
    var missingDays, changedDays := Filter(isMissing, eventDays), Filter(isChanged, eventDays);
    var incompleteDays, partialDays := Filter(isIncomplete, days), Filter(isPartial, days);
    LatestIsFirst(rollupByDay, days, latestEventAt);
    var newer := latestEventAt.Some? && days != [] && latestEventAt.value > rollupByDay[days[0]].generatedAt;
    var staleDays := StaleDayList(changedDays, if newer then Some(DayOf(latestEventAt.value)) else None);
    var status :=
      if latestEventAt.None? then Empty
      else if |staleDays| > 0 then Stale
      else if |missingDays| > 0 then Lacking
      else if |incompleteDays| > 0 then Lacking
      else if |partialDays| > 0 then Current
      else Ready;
    report := Report(status, latestEventAt, missingDays, staleDays, incompleteDays);
    FilterRising(isMissing, eventDays);
    FilterDescending(isIncomplete, days);
    SomePartial(rollupByDay, partialDays);
  }

  lemma SomePartial(fetched: map<int, Rollup>, partialDays: seq<int>)
    requires forall d :: d in partialDays <==> d in fetched && fetched[d].status == Partial
    ensures |partialDays| > 0 <==> SomeStatus(fetched, Partial)
  {
    SomeMember(partialDays);
  }

  /** `[...new Set([...changed, ...newest])].sort()`. */
  method StaleDayList(changed: seq<int>, newest: Option<int>) returns (list: seq<int>)
    ensures Rising(list) && forall d :: d in list <==> d in changed || newest == Some(d)
  {
    list := SortedDays((set d | d in changed) + if newest.Some? then {newest.value} else {});
  }

  /** `[...keys].sort()`. */
  method SortedDays(days: set<int>) returns (list: seq<int>)
    ensures Rising(list) && forall d :: d in list <==> d in days
  {
    var rest := days;
    list := [];
    while rest != {}
      invariant Rising(list) && forall d :: d in rest || d in list <==> d in days
      invariant forall d, i :: d in rest && 0 <= i < |list| ==> d > list[i]
      decreases rest
    {
      var rank := (d: int) => d;
      SomeLowest(rest, rank);
      var d :| d in rest && forall x :: x in rest ==> rank(d) <= rank(x);
      list, rest := list + [d], rest - {d};
    }
  }

  lemma {:induction false} FilterRising(keep: int -> bool, days: seq<int>)
    requires Rising(days)
    ensures Rising(Filter(keep, days))
  {
    if days != [] {
      var past, d := days[..|days| - 1], days[|days| - 1];
      FilterRising(keep, past);
      forall i | 0 <= i < |Filter(keep, past)| ensures Filter(keep, past)[i] < d {
        var x := Filter(keep, past)[i];
        assert x in Filter(keep, past);
        var k :| 0 <= k < |past| && past[k] == x;
      }
    }
  }

  lemma {:induction false} FilterDescending(keep: int -> bool, days: seq<int>)
    requires Descending(days)
    ensures Descending(Filter(keep, days))
  {
    if days != [] {
      var past, d := days[..|days| - 1], days[|days| - 1];
      FilterDescending(keep, past);
      forall i | 0 <= i < |Filter(keep, past)| ensures Filter(keep, past)[i] > d {
        var x := Filter(keep, past)[i];
        assert x in Filter(keep, past);
        var k :| 0 <= k < |past| && past[k] == x;
      }
    }
  }

  lemma BadDays(events: set<Event>, fetched: map<int, Rollup>, since: int)
    ensures forall d :: d in MissingDays(events, fetched, since) <==> d in EventDays(events, since) && d !in fetched
    ensures forall d :: d in StaleDays(events, fetched, since)
                        <==> d in EventDays(events, since) && d in fetched
                             && fetched[d].sourceEventCount != |EventsOn(events, d)|
  {
    hide EventDays, EventsOn;
  }

  lemma FirstIsGreatest(days: seq<int>)
    requires Descending(days)
    ensures days != [] ==> days[0] in days && forall d :: d in days ==> d <= days[0]
  {
    if days != [] {
      var first := days[0];
      assert first in days;
    }
  }

  lemma LatestIsFirst(fetched: map<int, Rollup>, days: seq<int>, at: Option<int>)
    requires Descending(days) && forall d :: d in days <==> d in fetched
    ensures days != [] ==> days[0] in fetched
    ensures NewerThan(at, fetched) <==> at.Some? && days != [] && at.value > fetched[days[0]].generatedAt
  {
    FirstIsGreatest(days);
    if days != [] {
      var first := days[0];
      assert first in fetched && forall x :: x in fetched ==> x <= first;
    }
  }

  lemma NewestEvent(events: set<Event>, fetched: map<int, Rollup>, at: Option<int>)
    requires IsLast(events, at)
    ensures NewerThan(at, fetched) <==> NewerThanLatest(events, fetched)
    ensures at.None? <==> events == {}
    ensures NewerThanLatest(events, fetched) ==> at.Some?
  {
    if at.Some? {
      var e :| e in events && e.occurredAt == at.value;
    }
  }

  /** Judged on what the table holds, the lists are the bad days and the status is the specified one. */
  lemma JudgementIsReport(report: Report, events: set<Event>, rollups: map<int, Rollup>, now: int, lookbackDays: int,
                          counts: map<int, nat>)
    requires IsLast(events, report.latestEventAt)
    requires counts == map d | d in EventDays(events, SinceDay(now, lookbackDays)) :: |EventsOn(events, d)|
    requires IsJudgement(report, Fetched(rollups, SinceDay(now, lookbackDays), Clamp(lookbackDays, 1, 31) + 1), counts)
    ensures IsReport(report, events, rollups, now, lookbackDays)
    ensures report.status == StatusOf(events, rollups, now, lookbackDays)
  {
    hide Fetched, SinceDay, NewerThanLatest, NewerThan, DayOf, StaleDays, MissingDays, EventDays, EventsOn, IsLast;
    var since := SinceDay(now, lookbackDays);
    var fetched := Fetched(rollups, since, Clamp(lookbackDays, 1, 31) + 1);
    NewestEvent(events, fetched, report.latestEventAt);
    BadDays(events, fetched, since);
    assert IsReport(report, events, rollups, now, lookbackDays);
    StaleDayExists(report, events, fetched, since);
    SomeMember(report.missingDays);
    SomeMember(report.incompleteDays);
    SomeDay(MissingDays(events, fetched, since));
  }

  lemma StaleDayExists(report: Report, events: set<Event>, fetched: map<int, Rollup>, since: int)
    requires NewerThanLatest(events, fetched) ==> report.latestEventAt.Some?
    requires forall d :: d in report.staleDays <==>
               || d in StaleDays(events, fetched, since)
               || (NewerThanLatest(events, fetched) && d == DayOf(report.latestEventAt.value))
    ensures |report.staleDays| > 0 <==> StaleDays(events, fetched, since) != {} || NewerThanLatest(events, fetched)
  {
    hide NewerThanLatest, DayOf, StaleDays;
    SomeMember(report.staleDays);
    SomeDay(StaleDays(events, fetched, since));
    if NewerThanLatest(events, fetched) {
      var d := DayOf(report.latestEventAt.value);
      assert d in report.staleDays;
    }
  }

  lemma SomeDay(days: set<int>)
    ensures days != {} <==> exists d :: d in days
  {
    if days != {} {
      SomeLowest(days, d => d);
    }
  }

  lemma SomeMember(days: seq<int>)
    ensures |days| > 0 <==> exists d :: d in days
  {
    if |days| > 0 {
      var d := days[0];
      assert d in days;
    }
  }

  lemma {:induction false} DescendingSize(days: seq<int>)
    requires Descending(days)
    ensures |set d | d in days| == |days|
  {
    if days != [] {
      var n := |days| - 1;
      DescendingSize(days[..n]);
      assert (set d | d in days) == (set d | d in days[..n]) + {days[n]} by { assert days == days[..n] + [days[n]]; }
    }
  }

  /** Taking the greatest days until the limit leaves out exactly those with that many later ones. */
  lemma ListedAreFetched(rollups: map<int, Rollup>, fromDay: int, limit: nat, days: seq<int>, rest: set<int>)
    requires Descending(days) && |days| <= limit && (rest == {} || |days| == limit)
    requires forall d :: d in rest || d in days <==> d in rollups && d >= fromDay
    requires forall d, i :: d in rest && 0 <= i < |days| ==> d < days[i]
    ensures forall d :: d in days <==> d in Fetched(rollups, fromDay, limit)
  {
    forall d | d in days ensures d in Fetched(rollups, fromDay, limit) {
      var k :| 0 <= k < |days| && days[k] == d;
      DescendingSize(days[..k]);
      assert (set x | x in rollups && x > d) == set x | x in days[..k];
    }
    forall d | d in rest && |days| == limit ensures d !in Fetched(rollups, fromDay, limit) {
      DescendingSize(days);
      SubsetSize(set x | x in days, set x | x in rollups && x > d);
    }
  }

  lemma MembersAdd(rows: seq<Event>, e: Event)
    ensures Members(rows + [e]) == Members(rows) + {e}
  {
  }

  lemma {:induction false} MembersSize(rows: seq<Event>)
    requires Distinct(rows)
    ensures |Members(rows)| == |rows|
  {
    if rows != [] {
      var n := |rows| - 1;
      var past, e := rows[..n], rows[n];
      assert rows == past + [e] && e !in past;
      MembersSize(past);
      MembersAdd(past, e);
      assert e !in Members(past);
    }
  }

  /** The two reads of a day agree: the scan was cut exactly when the count says so. */
  lemma WholeDayOrCapped(rows: seq<Event>, all: seq<Event>, events: set<Event>)
    requires IsReading(all, events) && rows == Top(all, 5001)
    ensures |rows| > 5000 <==> |events| > 5000
    ensures Top(rows, 5000) == Top(all, 5000)
  {
    ReadingSize(all, events);
  }

  /** The rows in any order of their ties make a reading. */
  lemma SomeReading(events: set<Event>) returns (rows: seq<Event>)
    ensures IsReading(rows, events)
  {
    if events == {} {
      rows := [];
    } else {
      var e :| e in events;
      rows := ReadingWithFirst(events, e);
    }
  }

  /** These rows have been read, and the rest comes later. */
  ghost predicate Started(rows: seq<Event>, rest: set<Event>, events: set<Event>) {
    && Distinct(rows) && TimeOrdered(rows) && Members(rows) + rest == events && Members(rows) !! rest
    && forall i, e :: 0 <= i < |rows| && e in rest ==> rows[i].occurredAt <= e.occurredAt
  }

  lemma NothingRead(events: set<Event>)
    ensures Started([], events, events)
  {
  }

  lemma RowRead(rows: seq<Event>, e: Event, rest: set<Event>, events: set<Event>)
    requires Started(rows, rest, events) && e in rest && forall x :: x in rest ==> e.occurredAt <= x.occurredAt
    ensures Started(rows + [e], rest - {e}, events)
  {
    MembersAdd(rows, e);
    assert forall x :: x in rows ==> x in Members(rows);
  }

  lemma ReadingsJoin(rows: seq<Event>, more: seq<Event>, rest: set<Event>, events: set<Event>)
    requires Started(rows, rest, events) && IsReading(more, rest)
    ensures IsReading(rows + more, events)
  {
    var all := rows + more;
    assert forall e :: e in more <==> e in rest;
    assert forall e :: e in rows <==> e in Members(rows);
    forall i, j | 0 <= i < j < |all| ensures all[i] != all[j] && all[i].occurredAt <= all[j].occurredAt {
      if i < |rows| <= j {
        assert all[j] == more[j - |rows|] && all[j] in more && all[i] in rows;
      }
    }
    assert Members(all) == Members(rows) + Members(more);
  }

  method BuildRecord(c: Collation, day: int, now: int, sourceEventCount: nat, capped: bool, events: seq<Event>)
    returns (r: Rollup)
    ensures r.day == day && r.generatedAt == now && r.totalEvents == r.sourceEventCount == sourceEventCount
    ensures r.status == if capped then Incomplete else if day == DayOf(now) then Partial else Complete
    ensures r.figures == FiguresOf(c, events)
  {
    var figures := ComputeFigures(c, events);
    var status := if capped then Incomplete else if day == DayOf(now) then Partial else Complete;
    r := Rollup(day, status, sourceEventCount, sourceEventCount, figures, now);
  }

  // ----- the report in terms of events and rollups alone -----

  /** A stored rollup of the lookback, with at most as many later ones as the lookback is long. */
  ghost predicate IsRead(rollups: map<int, Rollup>, now: int, lookbackDays: int, d: int) {
    && d in rollups && DayOf(now) - d < Clamp(lookbackDays, 1, 31)
    && |set x | x in rollups && x > d| <= Clamp(lookbackDays, 1, 31)
  }

  lemma FetchedAreRead(rollups: map<int, Rollup>, now: int, lookbackDays: int)
    ensures var fetched := Fetched(rollups, SinceDay(now, lookbackDays), Clamp(lookbackDays, 1, 31) + 1);
      && (forall d :: d in fetched <==> IsRead(rollups, now, lookbackDays, d))
      && forall d :: d in fetched ==> fetched[d] == rollups[d]
  {
  }

  /** The events of a day, and whether the lookback has an event on it. */
  ghost function OnDay(events: set<Event>, day: int): set<Event> {
    set e | e in events && DayOf(e.occurredAt) == day
  }

  /** What a rollup says of a day: how many events it has, and whether they were all scanned or more may come. */
  lemma WrittenMeans(c: Collation, r: Rollup, day: int, events: set<Event>, now: int)
    requires Written(c, r, day, EventsOn(events, day), now)
    ensures r.day == day && r.generatedAt == now && r.totalEvents == r.sourceEventCount == |OnDay(events, day)|
    ensures r.status == Incomplete <==> |OnDay(events, day)| > 5000
    ensures r.status == Partial <==> |OnDay(events, day)| <= 5000 && day == DayOf(now)
    ensures r.status == Complete <==> |OnDay(events, day)| <= 5000 && day != DayOf(now)
    ensures exists rows :: IsReading(rows, OnDay(events, day)) && r.figures == FiguresOf(c, Top(rows, 5000))
  {
    hide FiguresOf, IsReading;
    assert EventsOn(events, day) == OnDay(events, day);
  }

  ghost predicate IsEventDayIn(events: set<Event>, now: int, lookbackDays: int, d: int) {
    DayOf(now) - d < Clamp(lookbackDays, 1, 31) && exists e :: e in events && DayOf(e.occurredAt) == d
  }

  lemma EventDaysAreIn(events: set<Event>, now: int, lookbackDays: int)
    ensures forall d ::
              d in EventDays(events, SinceDay(now, lookbackDays)) <==> IsEventDayIn(events, now, lookbackDays, d)
  {
    hide DayOf;
    var days := EventDays(events, SinceDay(now, lookbackDays));
    forall d ensures d in days <==> IsEventDayIn(events, now, lookbackDays, d) {
      SinceIsLookback(d, now, lookbackDays);
      if e :| e in events && DayOf(e.occurredAt) == d && DayOf(now) - d < Clamp(lookbackDays, 1, 31) {
        assert d in days;
      }
    }
  }

  /** Some event is newer than the last rollup that was read. */
  ghost predicate OutOfDate(events: set<Event>, rollups: map<int, Rollup>, now: int, lookbackDays: int) {
    exists t, e :: IsRead(rollups, now, lookbackDays, t)
                   && (forall x :: IsRead(rollups, now, lookbackDays, x) ==> x <= t)
                   && e in events && e.occurredAt > rollups[t].generatedAt
  }

  /**
   Missing are the event days of the lookback without a rollup that was read, stale those whose rollup counted another
   number and the day of an event newer than every rollup, incomplete those of capped rollups.
  */
  lemma ReportMeans(report: Report, events: set<Event>, rollups: map<int, Rollup>, now: int, lookbackDays: int)
    requires IsReport(report, events, rollups, now, lookbackDays)
    ensures forall d :: d in report.missingDays <==>
              IsEventDayIn(events, now, lookbackDays, d) && !IsRead(rollups, now, lookbackDays, d)
    ensures forall d :: d in report.staleDays <==>
              || (IsEventDayIn(events, now, lookbackDays, d) && IsRead(rollups, now, lookbackDays, d)
                  && rollups[d].sourceEventCount != |OnDay(events, d)|)
              || (OutOfDate(events, rollups, now, lookbackDays) && report.latestEventAt.Some?
                  && d == DayOf(report.latestEventAt.value))
    ensures forall d :: d in report.incompleteDays <==>
              IsRead(rollups, now, lookbackDays, d) && rollups[d].status == Incomplete
  {
    hide Fetched, SinceDay, EventDays, IsRead, IsEventDayIn, DayOf;
    var since := SinceDay(now, lookbackDays);
    var fetched := Fetched(rollups, since, Clamp(lookbackDays, 1, 31) + 1);
    FetchedAreRead(rollups, now, lookbackDays);
    EventDaysAreIn(events, now, lookbackDays);
    BadDays(events, fetched, since);
    NewestEvent(events, fetched, report.latestEventAt);
    assert NewerThanLatest(events, fetched) <==> OutOfDate(events, rollups, now, lookbackDays);
    hide NewerThanLatest, OutOfDate, StaleDays, MissingDays;
    assert forall d :: EventsOn(events, d) == OnDay(events, d) by { hide DayOf; }
  }

  /** Which of the questions the status answers, in their order. */
  lemma StatusMeans(report: Report, events: set<Event>, rollups: map<int, Rollup>, now: int, lookbackDays: int)
    requires IsReport(report, events, rollups, now, lookbackDays)
    requires report.status == StatusOf(events, rollups, now, lookbackDays)
    ensures report.status == Empty <==> events == {}
    ensures report.status == Stale <==> events != {} && report.staleDays != []
    ensures report.status == Lacking <==>
              events != {} && report.staleDays == [] && (report.missingDays != [] || report.incompleteDays != [])
    ensures report.status == Current <==>
              && events != {} && report.staleDays == [] && report.missingDays == [] && report.incompleteDays == []
              && exists d :: IsRead(rollups, now, lookbackDays, d) && rollups[d].status == Partial
  {
    hide Fetched, SinceDay, IsRead, NewerThanLatest, DayOf, StaleDays, MissingDays, IsLast;
    var since := SinceDay(now, lookbackDays);
    var fetched := Fetched(rollups, since, Clamp(lookbackDays, 1, 31) + 1);
    FetchedAreRead(rollups, now, lookbackDays);
    NewestEvent(events, fetched, report.latestEventAt);
    StaleDayExists(report, events, fetched, since);
    SomeMember(report.missingDays);
    SomeMember(report.incompleteDays);
    SomeDay(MissingDays(events, fetched, since));
  }

  /** A run without a named day goes over the last days up to today; a name that is no date stands for today. */
  lemma RequestedMeans(day: Option<Option<int>>, now: int, count: int, d: int)
    ensures d in Requested(day, now, count) <==>
            match day
            case None => 0 <= DayOf(now) - d < Clamp(count, 1, 31)
            case Some(None) => d == DayOf(now)
            case Some(Some(named)) => d == named
  {
    hide DayOf;
    DaysAre(FirstRequested(day, now, count) - 1, LastRequested(day, now));
  }

  // ----- the status is not needlessly bad -----

  /** With no rollup past today, the row limit reaches every stored day of the lookback. */
  lemma LookbackIsFetched(rollups: map<int, Rollup>, now: int, lookbackDays: int, d: int)
    requires forall x :: x in rollups ==> x <= DayOf(now)
    requires d in rollups && DayOf(now) - d < Clamp(lookbackDays, 1, 31)
    ensures d in Fetched(rollups, SinceDay(now, lookbackDays), Clamp(lookbackDays, 1, 31) + 1)
  {
    var later := set x | x in rollups && x > d;
    DaysAre(d, DayOf(now));
    SubsetSize(later, Days(d, DayOf(now)));
  }

  /** Rolling up the whole lookback just now, with no day over the scan limit, never leaves it stale or lacking. */
  lemma FreshRollups(c: Collation, events: set<Event>, rollups: map<int, Rollup>, now: int, lookbackDays: int)
    requires forall d :: DayOf(now) - Clamp(lookbackDays, 1, 31) < d <= DayOf(now) ==>
               && d in rollups && Written(c, rollups[d], d, EventsOn(events, d), now)
               && |EventsOn(events, d)| <= 5000
    requires forall d :: d in rollups ==> d <= DayOf(now)
    requires forall e :: e in events ==> e.occurredAt <= now
    ensures StatusOf(events, rollups, now, lookbackDays) == if events == {} then Empty else Current
  {
    hide Written, EventsOn, Fetched, SinceDay, DayOf, StatusOf;
    var since, today := SinceDay(now, lookbackDays), DayOf(now);
    var fetched := Fetched(rollups, since, Clamp(lookbackDays, 1, 31) + 1);
    FetchedIsStored(rollups, since, Clamp(lookbackDays, 1, 31) + 1);
    TodayIsLookedAt(now, lookbackDays);
    forall d | since <= d <= today ensures d in fetched && FreshDay(fetched[d], d, events, now) {
      SinceIsLookback(d, now, lookbackDays);
      LookbackIsFetched(rollups, now, lookbackDays, d);
      WrittenIsFresh(c, rollups[d], d, events, now);
    }
    assert forall e :: e in events ==> DayOf(e.occurredAt) <= today by { NoneLater(events, now); }
    FreshChain(events, rollups, fetched, now, lookbackDays);
  }

  /** What a rollup written just now says, under the scan limit. */
  ghost predicate FreshDay(r: Rollup, day: int, events: set<Event>, now: int) {
    && r.generatedAt == now && r.sourceEventCount == |EventsOn(events, day)|
    && r.status == if day == DayOf(now) then Partial else Complete
  }

  lemma WrittenIsFresh(c: Collation, r: Rollup, day: int, events: set<Event>, now: int)
    requires Written(c, r, day, EventsOn(events, day), now) && |EventsOn(events, day)| <= SCAN_LIMIT
    ensures FreshDay(r, day, events, now)
  {
    hide EventsOn, IsReading, FiguresOf;
  }

  lemma TodayIsLookedAt(now: int, lookbackDays: int)
    ensures SinceDay(now, lookbackDays) <= DayOf(now)
  {
  }

  lemma NoneLater(events: set<Event>, now: int)
    requires forall e :: e in events ==> e.occurredAt <= now
    ensures forall e :: e in events ==> DayOf(e.occurredAt) <= DayOf(now)
  {
  }

  lemma NothingNewer(events: set<Event>, fetched: map<int, Rollup>, today: int, now: int)
    requires today in fetched && fetched[today].generatedAt == now && forall d :: d in fetched ==> d <= today
    requires forall e :: e in events ==> e.occurredAt <= now
    ensures !NewerThanLatest(events, fetched)
  {
  }

  /** The chain of questions on days that are all fresh. */
  lemma FreshChain(events: set<Event>, rollups: map<int, Rollup>, fetched: map<int, Rollup>, now: int,
                   lookbackDays: int)
    requires fetched == Fetched(rollups, SinceDay(now, lookbackDays), Clamp(lookbackDays, 1, 31) + 1)
    requires SinceDay(now, lookbackDays) <= DayOf(now)
    requires forall d :: SinceDay(now, lookbackDays) <= d <= DayOf(now) ==>
               d in fetched && FreshDay(fetched[d], d, events, now)
    requires forall d :: d in fetched ==> SinceDay(now, lookbackDays) <= d <= DayOf(now)
    requires forall e :: e in events ==> e.occurredAt <= now && DayOf(e.occurredAt) <= DayOf(now)
    ensures StatusOf(events, rollups, now, lookbackDays) == if events == {} then Empty else Current
  {
    hide Fetched, SinceDay, DayOf, EventsOn, NewerThanLatest, StaleDays, MissingDays, SomeStatus;
    var since, today := SinceDay(now, lookbackDays), DayOf(now);
    NothingNewer(events, fetched, today, now);
    NoneMissing(events, fetched, since, today, now);
    FreshStatuses(events, fetched, since, now);
  }

  lemma FreshStatuses(events: set<Event>, fetched: map<int, Rollup>, since: int, now: int)
    requires since <= DayOf(now)
    requires forall d :: since <= d <= DayOf(now) <==> d in fetched
    requires forall d :: d in fetched ==> FreshDay(fetched[d], d, events, now)
    ensures SomeStatus(fetched, Partial) && !SomeStatus(fetched, Incomplete)
  {
    hide DayOf, EventsOn;
    var today := DayOf(now);
    assert today in fetched && fetched[today].status == Partial;
  }

  lemma FetchedIsStored(rollups: map<int, Rollup>, since: int, limit: nat)
    ensures forall d :: d in Fetched(rollups, since, limit) ==>
              d >= since && d in rollups && Fetched(rollups, since, limit)[d] == rollups[d]
  {
  }

  lemma NoneMissing(events: set<Event>, fetched: map<int, Rollup>, since: int, today: int, now: int)
    requires forall d :: since <= d <= today ==> d in fetched && fetched[d].sourceEventCount == |EventsOn(events, d)|
    requires forall e :: e in events ==> DayOf(e.occurredAt) <= today
    ensures MissingDays(events, fetched, since) == {} && StaleDays(events, fetched, since) == {}
  {
  }
}
