/**
 The mark-and-sweep sync of open issues and pull requests (src/db/repositories.ts). The two tables run the
 same statements, so one model serves both. Instants are milliseconds.
*/
module OpenSync {
  import opened Options

  /** The unique index of both tables. */
  datatype Key = Key(repo: string, number: int)

  datatype Row = Row(state: string, title: string, lastSeenOpenAt: Option<int>, updatedAt: int)

  type Rows = map<Key, Row>

  predicate IsOpen(rows: Rows, k: Key) {
    k in rows && rows[k].state == "open"
  }

  function OpenKeys(rows: Rows): set<Key> {
    set k | k in rows && rows[k].state == "open"
  }

  /** An open item not seen open since the mark. */
  predicate Unseen(k: Key, row: Row, repo: string, mark: int) {
    k.repo == repo && row.state == "open" && (row.lastSeenOpenAt.None? || row.lastSeenOpenAt.value < mark)
  }

  function UnseenKeys(rows: Rows, repo: string, mark: int): set<Key> {
    set k | k in rows && Unseen(k, rows[k], repo, mark)
  }

  function Upserted(rows: Rows, k: Key, state: string, title: string, seenOpenAt: Option<int>, now: int): Rows {
    rows[k := Row(state, title,
                  if state == "open" then Some(if seenOpenAt.Some? then seenOpenAt.value else now) else None,
                  now)]
  }

  function Swept(rows: Rows, repo: string, mark: int, now: int): Rows {
    map k | k in rows ::
      if Unseen(k, rows[k], repo, mark) then rows[k].(state := "closed", updatedAt := now) else rows[k]
  }

  class OpenTable {
    var rows: Rows

    constructor ()
      ensures rows == map[]
    {
      rows := map[];
    }

    method Upsert(repo: string, number: int, state: string, title: string, seenOpenAt: Option<int>, now: int)
      modifies this
      ensures rows == Upserted(old(rows), Key(repo, number), state, title, seenOpenAt, now)
      ensures rows - {Key(repo, number)} == old(rows) - {Key(repo, number)} && Key(repo, number) in rows
      ensures var row := rows[Key(repo, number)];
        && row.state == state && row.title == title && row.updatedAt == now
        && (state == "open" && seenOpenAt.Some? ==> row.lastSeenOpenAt == seenOpenAt)
        && (state == "open" && seenOpenAt.None? ==> row.lastSeenOpenAt == Some(now))
        && (state != "open" ==> row.lastSeenOpenAt == None)
    {
      var lastSeenOpenAt := None;
      if state == "open" {
        lastSeenOpenAt := Some(if seenOpenAt.Some? then seenOpenAt.value else now);
      }
      rows := rows[Key(repo, number) := Row(state, title, lastSeenOpenAt, now)];
    }

    /** The return value is the drop in open rows. */
    method MarkUnseenClosed(repo: string, mark: int, now: int) returns (changes: nat)
      modifies this
      ensures rows == Swept(old(rows), repo, mark, now)
      ensures changes == |OpenKeys(old(rows))| - |OpenKeys(rows)|
      ensures rows.Keys == old(rows).Keys
      ensures forall k: Key :: k in rows && k.repo == repo ==>
                var before := old(rows)[k];
                rows[k] == if before.state == "open"
                              && (before.lastSeenOpenAt.Some? ==> before.lastSeenOpenAt.value < mark)
                           then before.(state := "closed", updatedAt := now) else before
      ensures forall k: Key :: k.repo != repo ==>
                (k in rows <==> k in old(rows)) && (k in rows ==> rows[k] == old(rows)[k])
    {
      var unseen := UnseenKeys(rows, repo, mark);
      SweepCloses(rows, repo, mark, now);
      rows := map k | k in rows :: if k in unseen then rows[k].(state := "closed", updatedAt := now) else rows[k];
      changes := |unseen|;
    }
  }

  lemma SweepCloses(rows: Rows, repo: string, mark: int, now: int)
    ensures OpenKeys(Swept(rows, repo, mark, now)) == OpenKeys(rows) - UnseenKeys(rows, repo, mark)
    ensures |OpenKeys(Swept(rows, repo, mark, now))| == |OpenKeys(rows)| - |UnseenKeys(rows, repo, mark)|
  {
    var after := Swept(rows, repo, mark, now);
    forall k ensures k in OpenKeys(after) <==> k in OpenKeys(rows) && k !in UnseenKeys(rows, repo, mark) {
    }
    assert UnseenKeys(rows, repo, mark) <= OpenKeys(rows);
    assert OpenKeys(rows) == OpenKeys(after) + UnseenKeys(rows, repo, mark);
  }

  // ----- histories -----

  datatype Op =
    | Put(key: Key, state: string, title: string, seenOpenAt: Option<int>, now: int)
    | Sweep(repo: string, mark: int, now: int)

  function Apply(rows: Rows, op: Op): Rows {
    match op
    case Put(k, state, title, seen, now) => Upserted(rows, k, state, title, seen, now)
    case Sweep(repo, mark, now) => Swept(rows, repo, mark, now)
  }

  /** The table after a history that starts empty. */
  function After(history: seq<Op>): Rows {
    if history == [] then map[] else Apply(After(history[..|history| - 1]), history[|history| - 1])
  }

  function SeenAt(op: Op): int
    requires op.Put?
  {
    if op.seenOpenAt.Some? then op.seenOpenAt.value else op.now
  }

  /** The upsert number i reported k open, nothing has been reported about k since, and no sweep has passed it. */
  ghost predicate KeepsOpen(history: seq<Op>, i: nat, k: Key) {
    && i < |history| && history[i].Put? && history[i].key == k && history[i].state == "open"
    && (forall j :: i < j < |history| && history[j].Put? ==> history[j].key != k)
    && (forall j :: i < j < |history| && history[j].Sweep? && history[j].repo == k.repo ==>
          history[j].mark <= SeenAt(history[i]))
  }

  lemma {:induction false} OpenRowWasSeen(history: seq<Op>, k: Key) returns (i: nat)
    requires IsOpen(After(history), k)
    ensures KeepsOpen(history, i, k) && After(history)[k].lastSeenOpenAt == Some(SeenAt(history[i]))
  {
    var n := |history| - 1;
    var past, op := history[..n], history[n];
    if op.Put? && op.key == k {
      i := n;
    } else {
      i := OpenRowWasSeen(past, k);
      assert history[i] == past[i];
      forall j | i < j < |history| && history[j].Put? ensures history[j].key != k {
        if j < n { assert history[j] == past[j]; }
      }
      forall j | i < j < |history| && history[j].Sweep? && history[j].repo == k.repo
        ensures history[j].mark <= SeenAt(history[i])
      {
        if j < n { assert history[j] == past[j]; }
      }
    }
  }

  lemma {:induction false} SeenRowIsOpen(history: seq<Op>, i: nat, k: Key)
    requires KeepsOpen(history, i, k)
    ensures IsOpen(After(history), k) && After(history)[k].lastSeenOpenAt == Some(SeenAt(history[i]))
    decreases |history|
  {
    var n := |history| - 1;
    if i < n {
      var past := history[..n];
      assert KeepsOpen(past, i, k) by {
        forall j | i < j < n && past[j].Put? ensures past[j].key != k { assert past[j] == history[j]; }
        forall j | i < j < n && past[j].Sweep? && past[j].repo == k.repo ensures past[j].mark <= SeenAt(past[i]) {
          assert past[j] == history[j];
        }
      }
      SeenRowIsOpen(past, i, k);
    }
  }

  /**
   Over any interleaving of upserts and sweeps, an item is open exactly when its latest upsert reported it open
   and every later sweep of its repository had a mark no later than the time that upsert saw it.
  */
  lemma OpenExactly(history: seq<Op>, k: Key)
    ensures IsOpen(After(history), k) <==> exists i: nat :: KeepsOpen(history, i, k)
  {
    if IsOpen(After(history), k) {
      var i := OpenRowWasSeen(history, k);
    }
    if exists i: nat :: KeepsOpen(history, i, k) {
      var i: nat :| KeepsOpen(history, i, k);
      SeenRowIsOpen(history, i, k);
    }
  }

  // ----- a complete scan -----

  function Seen(repo: string, number: int, start: int): Op {
    Put(Key(repo, number), "open", "", Some(start), start)
  }

  /** The history goes on with a scan that found these numbers open, marked with its start, and the sweep. */
  ghost predicate Scanned(all: seq<Op>, history: seq<Op>, repo: string, numbers: seq<int>, start: int, now: int) {
    var h := |history|;
    && |all| == h + |numbers| + 1
    && (forall i :: 0 <= i < h ==> all[i] == history[i])
    && (forall i :: h <= i < h + |numbers| ==> all[i] == Seen(repo, numbers[i - h], start))
    && all[h + |numbers|] == Sweep(repo, start, now)
  }

  ghost predicate SeenBefore(history: seq<Op>, repo: string, start: int) {
    forall j :: 0 <= j < |history| && history[j].Put? && history[j].key.repo == repo ==> SeenAt(history[j]) < start
  }

  lemma ScannedStaysOpen(all: seq<Op>, history: seq<Op>, repo: string, numbers: seq<int>, start: int, now: int,
                         number: int)
    requires Scanned(all, history, repo, numbers, start, now) && number in numbers
    ensures exists i: nat :: KeepsOpen(all, i, Key(repo, number))
  {
    var last := LastIndex(numbers, number);
    var at := last + |history|;
    assert KeepsOpen(all, at, Key(repo, number));
  }

  lemma UnscannedCloses(all: seq<Op>, history: seq<Op>, repo: string, numbers: seq<int>, start: int, now: int,
                        number: int, i: nat)
    requires Scanned(all, history, repo, numbers, start, now) && number !in numbers && SeenBefore(history, repo, start)
    ensures !KeepsOpen(all, i, Key(repo, number))
  {
    assert all[|all| - 1] == Sweep(repo, start, now);
    assert i < |history| ==> all[i] == history[i];
  }

  /** After a scan and its sweep exactly the scanned items are open, if earlier upserts were seen before its start. */
  lemma ScanReconciles(all: seq<Op>, history: seq<Op>, repo: string, numbers: seq<int>, start: int, now: int,
                       number: int)
    requires Scanned(all, history, repo, numbers, start, now) && SeenBefore(history, repo, start)
    ensures IsOpen(After(all), Key(repo, number)) <==> number in numbers
  {
    OpenExactly(all, Key(repo, number));
    hide Scanned, KeepsOpen, SeenBefore, After;
    if number in numbers {
      ScannedStaysOpen(all, history, repo, numbers, start, now, number);
    } else {
      forall i: nat ensures !KeepsOpen(all, i, Key(repo, number)) {
        UnscannedCloses(all, history, repo, numbers, start, now, number, i);
      }
    }
  }

  lemma {:induction false} LastIndex(s: seq<int>, x: int) returns (i: nat)
    requires x in s
    ensures i < |s| && s[i] == x && forall j :: i < j < |s| ==> s[j] != x
  {
    var n := |s| - 1;
    if s[n] == x {
      i := n;
    } else {
      i := LastIndex(s[..n], x);
    }
  }
}
