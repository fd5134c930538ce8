/** Bounty imports and the log of status changes they leave (src/api/routes.ts, src/db/repositories.ts). */
module BountyLog {
  import opened Options
  import opened Sequences

  datatype Bounty = Bounty(
    id: string, repoFullName: string, issueNumber: int, status: string, amountText: Option<string>)

  datatype Event = Event(bountyId: string, status: string, previousStatus: Option<string>)

  /** Rows by primary key; the table also keeps (repoFullName, issueNumber) unique. */
  type Table = map<string, Bounty>

  predicate SameIssue(a: Bounty, b: Bounty) {
    a.repoFullName == b.repoFullName && a.issueNumber == b.issueNumber
  }

  predicate UniqueIssues(t: Table) {
    forall a, b :: a in t && b in t && a != b ==>
      !(t[a].repoFullName == t[b].repoFullName && t[a].issueNumber == t[b].issueNumber)
  }

  /** Writing this row would break the second unique index, so the statement throws. */
  predicate Collides(t: Table, b: Bounty) {
    exists id :: id in t && id != b.id && SameIssue(t[id], b)
  }

  function StatusIn(t: Table, id: string): Option<string> {
    if id in t then Some(t[id].status) else None
  }

  /** The event of one upsert, if the status is new. */
  function Change(t: Table, b: Bounty): seq<Event> {
    if StatusIn(t, b.id) == Some(b.status) then [] else [Event(b.id, b.status, StatusIn(t, b.id))]
  }

  /** After the upserts of a snapshot, up to the first that throws: table, events collected, and whether none threw. */
  datatype Progress = Progress(table: Table, events: seq<Event>, completed: bool)

  function Take(t: Table, snapshot: seq<Bounty>): Progress {
    if snapshot == [] then Progress(t, [], true)
    else
      var n := |snapshot| - 1;
      var past, b := Take(t, snapshot[..n]), snapshot[n];
      if !past.completed then past
      else if Collides(past.table, b) then past.(completed := false)
      else Progress(past.table[b.id := b], past.events + Change(past.table, b), true)
  }

  datatype Reply = Imported(imported: nat, lifecycleEvents: nat) | Failed

  class BountyStore {
    var bounties: Table
    var log: seq<Event>

    constructor ()
      ensures bounties == map[] && log == []
    {
      bounties, log := map[], [];
    }

    method UpsertBounty(b: Bounty) returns (thrown: bool)
      modifies this`bounties
      ensures thrown == Collides(old(bounties), b)
      ensures thrown <==>
                exists id :: id in old(bounties) && id != b.id && old(bounties)[id].repoFullName == b.repoFullName
                             && old(bounties)[id].issueNumber == b.issueNumber
      ensures bounties == if thrown then old(bounties) else old(bounties)[b.id := b]
    {
      thrown := Collides(bounties, b);
      if !thrown {
        bounties := bounties[b.id := b];
      }
    }

    /** Rows are written one by one, and the events only after the last of them. */
    method Import(snapshot: seq<Bounty>) returns (reply: Reply)
      modifies this
      ensures var p := Take(old(bounties), snapshot);
        && bounties == p.table
        && log == old(log) + (if p.completed then p.events else [])
        && reply == if p.completed then Imported(|snapshot|, |p.events|) else Failed
    {
      var events: seq<Event> := [];
      ghost var start := bounties;
      for i := 0 to |snapshot|
        invariant log == old(log) && Take(start, snapshot[..i]) == Progress(bounties, events, true)
      {
        var bounty := snapshot[i];
        assert snapshot[..i + 1][..i] == snapshot[..i];
        var existing := if bounty.id in bounties then Some(bounties[bounty.id]) else None;
        var thrown := UpsertBounty(bounty);
        if thrown {
          StaysAborted(start, snapshot, i + 1);
          return Failed;
        }
        if existing.None? || existing.value.status != bounty.status {
          var previousStatus := if existing.Some? then Some(existing.value.status) else None;
          events := events + [Event(bounty.id, bounty.status, previousStatus)];
        }
      }
      assert snapshot[..|snapshot|] == snapshot;
      log := log + events;
      return Imported(|snapshot|, |events|);
    }
  }

  lemma {:induction false} StaysAborted(t: Table, snapshot: seq<Bounty>, n: nat)
    requires n <= |snapshot| && !Take(t, snapshot[..n]).completed
    ensures Take(t, snapshot) == Take(t, snapshot[..n])
    decreases |snapshot|
  {
    if n < |snapshot| {
      assert snapshot[..|snapshot| - 1][..n] == snapshot[..n];
      StaysAborted(t, snapshot[..|snapshot| - 1], n);
    } else {
      assert snapshot[..n] == snapshot;
    }
  }

  /** No import stores two bounties on one issue. */
  lemma {:induction false} TakeKeepsIssuesUnique(t: Table, snapshot: seq<Bounty>)
    requires UniqueIssues(t) && forall id :: id in t ==> t[id].id == id
    ensures var after := Take(t, snapshot).table;
      UniqueIssues(after) && forall id :: id in after ==> after[id].id == id
  {
    if snapshot != [] {
      TakeKeepsIssuesUnique(t, snapshot[..|snapshot| - 1]);
    }
  }

  // ----- when an import throws -----

  /** The row that holds an id after these upserts, if none of them throws: the last one given, or the stored one. */
  function Latest(t: Table, snapshot: seq<Bounty>, id: string): Option<Bounty> {
    if snapshot == [] then if id in t then Some(t[id]) else None
    else
      var n := |snapshot| - 1;
      if snapshot[n].id == id then Some(snapshot[n]) else Latest(t, snapshot[..n], id)
  }

  function StatusOf(row: Option<Bounty>): Option<string> {
    if row.Some? then Some(row.value.status) else None
  }

  /** At the i-th bounty, another id holds its issue. */
  ghost predicate Clash(t: Table, snapshot: seq<Bounty>, i: nat)
    requires i < |snapshot|
  {
    exists id :: id != snapshot[i].id && Latest(t, snapshot[..i], id).Some?
                 && Latest(t, snapshot[..i], id).value.repoFullName == snapshot[i].repoFullName
                 && Latest(t, snapshot[..i], id).value.issueNumber == snapshot[i].issueNumber
  }

  ghost predicate FirstClash(t: Table, snapshot: seq<Bounty>, i: nat) {
    i < |snapshot| && Clash(t, snapshot, i) && forall j :: 0 <= j < i ==> !Clash(t, snapshot, j)
  }

  lemma ClashPrefix(t: Table, snapshot: seq<Bounty>, n: nat, i: nat)
    requires i < n <= |snapshot|
    ensures Clash(t, snapshot[..n], i) <==> Clash(t, snapshot, i)
  {
    assert snapshot[..n][..i] == snapshot[..i];
  }

  lemma {:induction false} WithoutClash(t: Table, snapshot: seq<Bounty>)
    requires forall i :: 0 <= i < |snapshot| ==> !Clash(t, snapshot, i)
    ensures Take(t, snapshot).completed
    ensures forall id :: Latest(t, snapshot, id)
                         == if id in Take(t, snapshot).table then Some(Take(t, snapshot).table[id]) else None
  {
    if snapshot != [] {
      var n := |snapshot| - 1;
      var past := snapshot[..n];
      forall i | 0 <= i < n ensures !Clash(t, past, i) {
        ClashPrefix(t, snapshot, n, i);
      }
      WithoutClash(t, past);
      assert !Clash(t, snapshot, n);
      var rows := Take(t, past).table;
      forall id | id in rows && id != snapshot[n].id ensures !SameIssue(rows[id], snapshot[n]) {
        assert Latest(t, past, id) == Some(rows[id]);
      }
    }
  }

  /** An import throws exactly at the first clash, with the rows before it written. */
  lemma AbortsAt(t: Table, snapshot: seq<Bounty>, i: nat)
    requires FirstClash(t, snapshot, i)
    ensures Take(t, snapshot) == Take(t, snapshot[..i]).(completed := false) && Take(t, snapshot[..i]).completed
  {
    var past, upTo := snapshot[..i], snapshot[..i + 1];
    forall j | 0 <= j < i ensures !Clash(t, past, j) {
      ClashPrefix(t, snapshot, i, j);
    }
    WithoutClash(t, past);
    var id :| id != snapshot[i].id
              && Latest(t, past, id).Some? && SameIssue(Latest(t, past, id).value, snapshot[i]);
    assert upTo[..i] == past;
    assert id in Take(t, past).table && Collides(Take(t, past).table, snapshot[i]);
    StaysAborted(t, snapshot, i + 1);
  }

  lemma {:induction false} ClashSearch(t: Table, snapshot: seq<Bounty>, n: nat)
    requires n <= |snapshot| && exists i :: 0 <= i < n && Clash(t, snapshot, i)
    ensures exists i: nat :: FirstClash(t, snapshot, i)
  {
    if i :| 0 <= i < n - 1 && Clash(t, snapshot, i) {
      ClashSearch(t, snapshot, n - 1);
    } else {
      assert FirstClash(t, snapshot, n - 1);
    }
  }

  // ----- chains -----

  function About(id: string): Event -> bool {
    (e: Event) => e.bountyId == id
  }

  function EventsOf(log: seq<Event>, id: string): seq<Event> {
    Filter(About(id), log)
  }

  /** Read from the end: the last event leads to the stored status, from the status the events before it lead to. */
  predicate IsChain(events: seq<Event>, stored: Option<string>) {
    if events == [] then stored.None?
    else
      var last := events[|events| - 1];
      && stored == Some(last.status) && last.previousStatus != stored
      && IsChain(events[..|events| - 1], last.previousStatus)
  }

  /** Where a chain stands before its i-th event. */
  function StatusBefore(events: seq<Event>, i: nat): Option<string>
    requires i <= |events|
  {
    if i == 0 then None else Some(events[i - 1].status)
  }

  predicate Follows(events: seq<Event>, i: nat)
    requires i < |events|
  {
    events[i].previousStatus == StatusBefore(events, i) && events[i].previousStatus != Some(events[i].status)
  }

  /** Chains are the sequences whose neighbours fit: no status before the first event, and none that repeats one. */
  lemma {:induction false} ChainLinks(events: seq<Event>, stored: Option<string>)
    ensures IsChain(events, stored) <==>
            stored == StatusBefore(events, |events|) && forall i :: 0 <= i < |events| ==> Follows(events, i)
  {
    if events != [] {
      var n := |events| - 1;
      var past := events[..n];
      ChainLinks(past, events[n].previousStatus);
      forall i | 0 <= i < n ensures Follows(past, i) == Follows(events, i) {
        assert past[i] == events[i] && (i > 0 ==> past[i - 1] == events[i - 1]);
      }
      assert StatusBefore(past, n) == StatusBefore(events, n);
      assert (forall i :: 0 <= i < |events| ==> Follows(events, i))
        <==> Follows(events, n) && forall i :: 0 <= i < n ==> Follows(past, i);
    }
  }

  lemma ChainExtends(events: seq<Event>, e: Event)
    requires IsChain(events, e.previousStatus) && e.previousStatus != Some(e.status)
    ensures IsChain(events + [e], Some(e.status))
  {
    assert (events + [e])[..|events|] == events;
  }

  lemma ChangeKeepsChains(t: Table, log: seq<Event>, b: Bounty)
    requires Chained(t, log)
    ensures Chained(t[b.id := b], log + Change(t, b))
  {
    hide IsChain, EventsOf;
    forall id ensures IsChain(EventsOf(log + Change(t, b), id), StatusIn(t[b.id := b], id)) {
      assert IsChain(EventsOf(log, id), StatusIn(t, id));
      if StatusIn(t, b.id) == Some(b.status) {
        assert log + Change(t, b) == log;
      } else {
        var e := Event(b.id, b.status, StatusIn(t, b.id));
        EventsOfAppend(log, e, id);
        if id == b.id {
          ChainExtends(EventsOf(log, id), e);
        } else {
          assert EventsOf(log, id) + [] == EventsOf(log, id);
        }
      }
    }
  }

  /** Every bounty's events form a chain that ends in its stored status. */
  ghost predicate Chained(t: Table, log: seq<Event>) {
    forall id :: IsChain(EventsOf(log, id), StatusIn(t, id))
  }

  lemma EventsOfAppend(log: seq<Event>, e: Event, id: string)
    ensures EventsOf(log + [e], id) == EventsOf(log, id) + if e.bountyId == id then [e] else []
  {
    FilterLast(About(id), log, e);
  }

  /** The rows written so far and all events collected so far agree, also when the import is about to abort. */
  lemma {:induction false} TakeKeepsChains(t: Table, log: seq<Event>, snapshot: seq<Bounty>)
    requires Chained(t, log)
    ensures Chained(Take(t, snapshot).table, log + Take(t, snapshot).events)
  {
    if snapshot == [] {
      assert log + [] == log;
    } else {
      var n := |snapshot| - 1;
      TakeKeepsChains(t, log, snapshot[..n]);
      var past, b := Take(t, snapshot[..n]), snapshot[n];
      if past.completed && !Collides(past.table, b) {
        ChangeKeepsChains(past.table, log + past.events, b);
        assert log + (past.events + Change(past.table, b)) == (log + past.events) + Change(past.table, b);
      }
    }
  }

  function LogAfter(t: Table, log: seq<Event>, snapshot: seq<Bounty>): seq<Event> {
    log + if Take(t, snapshot).completed then Take(t, snapshot).events else []
  }

  /** If an id clashes, every row written before the first clash has the status that is stored already. */
  ghost predicate Quiet(t: Table, snapshot: seq<Bounty>) {
    forall i: nat :: FirstClash(t, snapshot, i) ==>
      forall id :: StatusOf(Latest(t, snapshot[..i], id)) == StatusIn(t, id)
  }

  lemma QuietOrCompleted(t: Table, snapshot: seq<Bounty>)
    ensures var p := Take(t, snapshot);
      Quiet(t, snapshot) <==> p.completed || forall id :: StatusIn(p.table, id) == StatusIn(t, id)
  {
    hide Take;
    if exists i :: 0 <= i < |snapshot| && Clash(t, snapshot, i) {
      ClashSearch(t, snapshot, |snapshot|);
      var i: nat :| FirstClash(t, snapshot, i);
      AbortsAt(t, snapshot, i);
      forall j | 0 <= j < i ensures !Clash(t, snapshot[..i], j) {
        ClashPrefix(t, snapshot, i, j);
      }
      WithoutClash(t, snapshot[..i]);
      assert forall id :: StatusOf(Latest(t, snapshot[..i], id)) == StatusIn(Take(t, snapshot).table, id);
      assert forall k: nat :: FirstClash(t, snapshot, k) ==> k == i;
    } else {
      WithoutClash(t, snapshot);
    }
  }

  /**
   An import keeps the chains exactly when no bounty of the snapshot meets its issue under another id, or the rows
   before the first that does change no status.
  */
  lemma ImportKeepsChains(t: Table, log: seq<Event>, snapshot: seq<Bounty>)
    requires Chained(t, log)
    ensures Chained(Take(t, snapshot).table, LogAfter(t, log, snapshot)) <==> Quiet(t, snapshot)
  {
    hide IsChain, EventsOf, Quiet;
    var p := Take(t, snapshot);
    TakeKeepsChains(t, log, snapshot);
    QuietOrCompleted(t, snapshot);
    assert log + [] == log;
    if !p.completed && Chained(p.table, log) {
      forall id ensures StatusIn(p.table, id) == StatusIn(t, id) {
        ChainLinks(EventsOf(log, id), StatusIn(p.table, id));
        ChainLinks(EventsOf(log, id), StatusIn(t, id));
      }
    }
  }

  /** The store after a sequence of imports, from an empty database. */
  datatype Store = Store(table: Table, log: seq<Event>)

  function AfterImports(snapshots: seq<seq<Bounty>>): Store {
    if snapshots == [] then Store(map[], [])
    else
      var n := |snapshots| - 1;
      var past := AfterImports(snapshots[..n]);
      Store(Take(past.table, snapshots[n]).table, LogAfter(past.table, past.log, snapshots[n]))
  }

  ghost predicate ChainedAfter(snapshots: seq<seq<Bounty>>, n: nat)
    requires n <= |snapshots|
  {
    Chained(AfterImports(snapshots[..n]).table, AfterImports(snapshots[..n]).log)
  }

  ghost predicate QuietAt(snapshots: seq<seq<Bounty>>, n: nat)
    requires n < |snapshots|
  {
    Quiet(AfterImports(snapshots[..n]).table, snapshots[n])
  }

  lemma NextImport(snapshots: seq<seq<Bounty>>, n: nat)
    requires n < |snapshots| && ChainedAfter(snapshots, n)
    ensures ChainedAfter(snapshots, n + 1) <==> QuietAt(snapshots, n)
  {
    hide Chained, Quiet;
    var past := AfterImports(snapshots[..n]);
    assert snapshots[..n + 1][..n] == snapshots[..n];
    ImportKeepsChains(past.table, past.log, snapshots[n]);
  }

  lemma NoImportYet(snapshots: seq<seq<Bounty>>)
    ensures ChainedAfter(snapshots, 0)
  {
  }

  /** From an empty database, the chains hold after every import exactly when each is quiet on the table it meets. */
  lemma {:induction false} ImportsChain(snapshots: seq<seq<Bounty>>, m: nat)
    requires m <= |snapshots|
    ensures (forall n :: 0 <= n <= m ==> ChainedAfter(snapshots, n))
            <==> forall n :: 0 <= n < m ==> QuietAt(snapshots, n)
  {
    hide QuietAt, ChainedAfter;
    NoImportYet(snapshots);
    if m > 0 {
      ImportsChain(snapshots, m - 1);
      if ChainedAfter(snapshots, m - 1) {
        NextImport(snapshots, m - 1);
      }
    }
  }

  /** Ids and issues determine each other over all the rows ever imported. */
  ghost predicate Consistent(rows: set<Bounty>) {
    forall a, b :: a in rows && b in rows ==>
      (a.id == b.id <==> a.repoFullName == b.repoFullName && a.issueNumber == b.issueNumber)
  }

  ghost predicate StoredFrom(t: Table, rows: set<Bounty>) {
    forall id :: id in t ==> t[id] in rows && t[id].id == id
  }

  lemma {:induction false} ConsistentCompletes(t: Table, snapshot: seq<Bounty>, rows: set<Bounty>)
    requires Consistent(rows) && StoredFrom(t, rows) && forall i :: 0 <= i < |snapshot| ==> snapshot[i] in rows
    ensures Take(t, snapshot).completed && StoredFrom(Take(t, snapshot).table, rows)
  {
    if snapshot != [] {
      ConsistentCompletes(t, snapshot[..|snapshot| - 1], rows);
    }
  }

  /** Under such data no import ever throws, so the chains hold for every sequence of imports. */
  lemma {:induction false} ConsistentImportsChain(snapshots: seq<seq<Bounty>>, rows: set<Bounty>)
    requires Consistent(rows)
    requires forall n, i :: 0 <= n < |snapshots| && 0 <= i < |snapshots[n]| ==> snapshots[n][i] in rows
    ensures Chained(AfterImports(snapshots).table, AfterImports(snapshots).log)
    ensures StoredFrom(AfterImports(snapshots).table, rows)
  {
    if snapshots != [] {
      var n := |snapshots| - 1;
      ConsistentImportsChain(snapshots[..n], rows);
      var past := AfterImports(snapshots[..n]);
      ConsistentCompletes(past.table, snapshots[n], rows);
      QuietOrCompleted(past.table, snapshots[n]);
      ImportKeepsChains(past.table, past.log, snapshots[n]);
    }
  }

  /** Two bounties on one issue: the first row's change is stored, the second throws, and its event is lost. */
  lemma AbortedImportBreaksChain()
    ensures var a, b := Bounty("1", "o/r", 7, "open", None), Bounty("2", "o/r", 7, "open", None);
      var s := AfterImports([[a, b]]);
      s.table == map["1" := a] && s.log == [] && !Chained(s.table, s.log)
  {
    var a, b := Bounty("1", "o/r", 7, "open", None), Bounty("2", "o/r", 7, "open", None);
    var snapshot := [a, b];
    var none: seq<seq<Bounty>> := [];
    assert [snapshot][..0] == none && snapshot[..1] == [a] && [a][..0] == [];
    assert Take(map[], [a]) == Progress(map["1" := a], [Event("1", "open", None)], true);
    assert Collides(map["1" := a], b) by { assert "1" in map["1" := a] && "1" != b.id; }
    assert !IsChain(EventsOf([], "1"), Some("open"));
  }
}
