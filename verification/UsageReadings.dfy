/**
 A day's events are read in order of time, and events of one instant in any order. Where the collation ties two values
 that occur equally often, the stable sort keeps the order of their first events, so that the stored lists can depend
 on the reading (src/db/repositories.ts).
*/
module UsageReadings {
  import opened Options
  import opened Sorting
  import opened UsageDimensions

  predicate TimeOrdered(rows: seq<Event>) {
    forall i, j :: 0 <= i < j < |rows| ==> rows[i].occurredAt <= rows[j].occurredAt
  }

  /** `where ... order by occurred_at`: what the query may return. */
  ghost predicate IsReading(rows: seq<Event>, events: set<Event>) {
    Distinct(rows) && Members(rows) == events && TimeOrdered(rows)
  }

  /** The list of one dimension as computed from these rows. */
  function ListOf(c: Collation, d: Dimension, rows: seq<Event>, limit: nat): seq<Count> {
    Top(Ranked(c, Values(d, rows)), limit)
  }

  lemma ReadingIsRanking(c: Collation, d: Dimension, rows: seq<Event>, events: set<Event>)
    requires IsReading(rows, events)
    ensures IsRanking(c, d, events, Ranked(c, Values(d, rows)))
  {
    RankedIsRanking(c, Values(d, rows));
    RankingOfRows(c, d, rows, Ranked(c, Values(d, rows)));
  }

  // ----- first occurrences -----

  /** Where a value first occurs, or the length. */
  function FirstIndex(values: seq<Option<string>>, key: string): (k: nat)
    ensures k <= |values|
    ensures k < |values| ==> values[k] == Some(key)
    ensures forall j :: 0 <= j < k ==> values[j] != Some(key)
  {
    if values == [] then 0
    else
      var n := |values| - 1;
      var k := FirstIndex(values[..n], key);
      assert k < n ==> values[..n][k] == values[k];
      assert forall j :: 0 <= j < k ==> values[..n][j] == values[j];
      if k < n || values[n] == Some(key) then k else n + 1
  }

  lemma {:induction false} FirstKeysInOrder(values: seq<Option<string>>, i: nat, j: nat)
    requires i < j < |FirstKeys(values)|
    ensures FirstIndex(values, FirstKeys(values)[i]) < FirstIndex(values, FirstKeys(values)[j]) < |values|
  {
    var n := |values| - 1;
    var past, keys := FirstKeys(values[..n]), FirstKeys(values);
    if j < |past| {
      FirstKeysInOrder(values[..n], i, j);
      SameFirst(values, n, keys[i]);
      SameFirst(values, n, keys[j]);
    } else {
      FirstKeysOccur(values[..n]);
      assert keys[i] == past[i] && keys[i] in past;
      OccursFirst(values[..n], keys[i]);
      OccursFirst(values[..n], keys[j]);
      SameFirst(values, n, keys[i]);
    }
  }

  lemma SameFirst(values: seq<Option<string>>, n: nat, key: string)
    requires n == |values| - 1 && FirstIndex(values[..n], key) < n
    ensures FirstIndex(values, key) == FirstIndex(values[..n], key)
  {
  }

  lemma {:induction false} OccursFirst(values: seq<Option<string>>, key: string)
    ensures Occurrences(values, key) > 0 <==> key != "" && FirstIndex(values, key) < |values|
  {
    if values != [] {
      OccursFirst(values[..|values| - 1], key);
    }
  }

  // ----- when a value is first seen -----

  ghost function CountOf(d: Dimension, events: set<Event>, key: string): Count {
    Count(key, |WithKey(d, events, key)|)
  }

  ghost predicate IsFirstOf(s: set<Event>, e: Event) {
    e in s && forall x :: x in s ==> e.occurredAt <= x.occurredAt
  }

  lemma SomeFirst(s: set<Event>)
    ensures s != {} ==> exists e :: IsFirstOf(s, e)
  {
    if s != {} {
      var rank := (e: Event) => e.occurredAt;
      SomeLowest(s, rank);
      var e :| e in s && forall x :: x in s ==> rank(e) <= rank(x);
      assert IsFirstOf(s, e);
    }
  }

  /** The instant of the first event with this value. */
  ghost function FirstAt(d: Dimension, events: set<Event>, key: string): int {
    var s := WithKey(d, events, key);
    SomeFirst(s);
    if s == {} then 0 else var e :| IsFirstOf(s, e); e.occurredAt
  }

  lemma FirstAtIs(d: Dimension, events: set<Event>, e: Event, key: string)
    requires IsFirstOf(WithKey(d, events, key), e)
    ensures FirstAt(d, events, key) == e.occurredAt
  {
    SomeFirst(WithKey(d, events, key));
  }

  /** A reading meets a value first at that instant. */
  lemma FirstRead(d: Dimension, rows: seq<Event>, events: set<Event>, key: string)
    requires IsReading(rows, events) && WithKey(d, events, key) != {}
    ensures var k := FirstIndex(Values(d, rows), key);
      k < |rows| && rows[k].occurredAt == FirstAt(d, events, key)
  {
    hide FirstAt;
    var values, k := Values(d, rows), FirstIndex(Values(d, rows), key);
    var s := WithKey(d, events, key);
    forall x | x in s ensures k < |rows| && rows[k].occurredAt <= x.occurredAt {
      assert x in Members(rows);
      var i :| 0 <= i < |rows| && rows[i] == x;
      assert values[i] == Some(key);
    }
    var x :| x in s;
    assert rows[k] in Members(rows) && values[k] == Some(key);
    FirstAtIs(d, events, rows[k], key);
  }

  // ----- what all readings agree on -----

  /** The collation does not decide between two values, and neither do their counts and first instants. */
  ghost predicate Undecided(c: Collation, d: Dimension, events: set<Event>, a: string, b: string) {
    && a != b && |WithKey(d, events, a)| == |WithKey(d, events, b)| > 0
    && Tied(c, a, b) && FirstAt(d, events, a) == FirstAt(d, events, b)
  }

  /** In every reading a comes before b. */
  ghost predicate Ahead(c: Collation, d: Dimension, events: set<Event>, a: Count, b: Count) {
    || Before(c)(a, b)
    || (Tied(Before(c), a, b) && FirstAt(d, events, a.key) < FirstAt(d, events, b.key))
  }

  ghost function AheadOf(c: Collation, d: Dimension, events: set<Event>, key: string): set<string> {
    set e | e in events && ValueOf(d, e).Some?
            && Ahead(c, d, events, CountOf(d, events, ValueOf(d, e).value), CountOf(d, events, key))
      :: ValueOf(d, e).value
  }

  function KeysOf(list: seq<Count>): set<string> {
    set x | x in list :: x.key
  }

  lemma {:induction false} KeysOfSize(list: seq<Count>)
    requires DistinctKeys(list)
    ensures |KeysOf(list)| == |list|
  {
    if list != [] {
      var past, x := list[..|list| - 1], list[|list| - 1];
      KeysOfSize(past);
      assert list == past + [x];
      assert KeysOf(list) == KeysOf(past) + {x.key} && x.key !in KeysOf(past);
    }
  }

  /** Tied values stand in the order of their first occurrence. */
  function Earlier(values: seq<Option<string>>): (Count, Count) -> bool {
    (a: Count, b: Count) => FirstIndex(values, a.key) < FirstIndex(values, b.key)
  }

  lemma RankedIsStable(c: Collation, values: seq<Option<string>>)
    ensures Stable(Before(c), Earlier(values), Ranked(c, values))
  {
    hide FirstKeys, FirstIndex, SortBy, WeakOrder;
    var entries := Counted(values);
    BeforeIsWeakOrder(c);
    forall i, j | 0 <= i < j < |entries| ensures Earlier(values)(entries[i], entries[j]) {
      FirstKeysInOrder(values, i, j);
    }
    SortStable(Before(c), Earlier(values), entries);
  }

  /** Nothing in the list is ahead of what stands before it. */
  lemma NeverAhead(c: Collation, d: Dimension, rows: seq<Event>, events: set<Event>, i: nat, j: nat)
    requires IsReading(rows, events) && i <= j < |Ranked(c, Values(d, rows))|
    ensures var full := Ranked(c, Values(d, rows)); !Ahead(c, d, events, full[j], full[i])
  {
    hide Ranked, FirstAt, FirstIndex;
    var values := Values(d, rows);
    var full := Ranked(c, values);
    hide Before;
    ReadingIsRanking(c, d, rows, events);
    Asymmetric(c, full[i], full[j]);
    if i < j {
      RankedIsStable(c, values);
      assert |WithKey(d, events, full[i].key)| > 0 && |WithKey(d, events, full[j].key)| > 0;
      FirstRead(d, rows, events, full[i].key);
      FirstRead(d, rows, events, full[j].key);
      assert Before(c)(full[i], full[j]) || Earlier(values)(full[i], full[j]);
    }
  }

  lemma Asymmetric(c: Collation, a: Count, b: Count)
    ensures !Before(c)(a, a) && !(Before(c)(a, b) && Before(c)(b, a))
  {
    BeforeIsWeakOrder(c);
  }

  /** Whatever is ahead of the i-th value stands before it. */
  lemma AheadStandBefore(c: Collation, d: Dimension, rows: seq<Event>, events: set<Event>, i: nat)
    requires IsReading(rows, events) && i < |Ranked(c, Values(d, rows))|
    ensures var full := Ranked(c, Values(d, rows));
      AheadOf(c, d, events, full[i].key) <= KeysOf(full[..i])
  {
    hide Ranked, Ahead, WithKey, Values;
    var full := Ranked(c, Values(d, rows));
    ReadingIsRanking(c, d, rows, events);
    forall k | k in AheadOf(c, d, events, full[i].key) ensures k in KeysOf(full[..i]) {
      var e :| e in events && ValueOf(d, e) == Some(k)
               && Ahead(c, d, events, CountOf(d, events, k), CountOf(d, events, full[i].key));
      assert CountOf(d, events, k) in full && CountOf(d, events, full[i].key) == full[i];
      var j :| 0 <= j < |full| && full[j] == CountOf(d, events, k);
      if j >= i {
        NeverAhead(c, d, rows, events, i, j);
      }
      assert full[..i][j] == full[j];
    }
  }

  /** All rows before the first event with this value are of earlier instants. */
  ghost predicate FirstOfInstant(d: Dimension, rows: seq<Event>, events: set<Event>, key: string) {
    forall j :: 0 <= j < FirstIndex(Values(d, rows), key) && j < |rows| ==> rows[j].occurredAt < FirstAt(d, events, key)
  }

  lemma StandsAhead(c: Collation, d: Dimension, rows: seq<Event>, events: set<Event>, i: nat, j: nat)
    requires IsReading(rows, events) && j < i < |Ranked(c, Values(d, rows))|
    requires FirstOfInstant(d, rows, events, Ranked(c, Values(d, rows))[i].key)
    ensures var full := Ranked(c, Values(d, rows)); Ahead(c, d, events, full[j], full[i])
  {
    hide Ranked, Before, FirstAt, FirstIndex;
    var values := Values(d, rows);
    var full := Ranked(c, values);
    ReadingIsRanking(c, d, rows, events);
    RankedIsStable(c, values);
    assert |WithKey(d, events, full[j].key)| > 0 && |WithKey(d, events, full[i].key)| > 0;
    hide IsRanking, Values;
    FirstRead(d, rows, events, full[j].key);
    FirstRead(d, rows, events, full[i].key);
    assert Before(c)(full[j], full[i]) || (Tied(Before(c), full[j], full[i]) && Earlier(values)(full[j], full[i]));
  }

  /** Then nothing else stands before the value. */
  lemma OnlyAheadBefore(c: Collation, d: Dimension, rows: seq<Event>, events: set<Event>, i: nat)
    requires IsReading(rows, events) && i < |Ranked(c, Values(d, rows))|
    requires FirstOfInstant(d, rows, events, Ranked(c, Values(d, rows))[i].key)
    ensures var full := Ranked(c, Values(d, rows));
      KeysOf(full[..i]) <= AheadOf(c, d, events, full[i].key)
  {
    hide Ranked, Ahead, FirstOfInstant, Values;
    var full := Ranked(c, Values(d, rows));
    ReadingIsRanking(c, d, rows, events);
    forall k | k in KeysOf(full[..i]) ensures k in AheadOf(c, d, events, full[i].key) {
      var x :| x in full[..i] && x.key == k;
      var j :| 0 <= j < i && full[..i][j] == x;
      StandsAhead(c, d, rows, events, i, j);
      assert full[j] == CountOf(d, events, k) && full[i] == CountOf(d, events, full[i].key);
      var e :| e in WithKey(d, events, k);
      assert e in events && ValueOf(d, e) == Some(k);
    }
  }

  // ----- when the list does not depend on the reading -----

  /** Values that nothing decides between come after the cut. */
  ghost predicate Decided(c: Collation, d: Dimension, events: set<Event>, limit: nat) {
    forall a, b :: Undecided(c, d, events, a, b) ==> |AheadOf(c, d, events, a)| >= limit
  }

  lemma SubsetSize<T>(a: set<T>, b: set<T>)
    requires a <= b
    ensures |a| <= |b|
  {
    assert b == a + (b - a);
  }

  lemma PrefixKeys(full: seq<Count>, i: nat)
    requires DistinctKeys(full) && i <= |full|
    ensures |KeysOf(full[..i])| == i
  {
    KeysOfSize(full[..i]);
  }

  /** At the first place where two readings differ stand two values that nothing decides between. */
  lemma DifferenceIsUndecided(c: Collation, d: Dimension, events: set<Event>, rows: seq<Event>, more: seq<Event>,
                              i: nat)
    requires IsReading(rows, events) && IsReading(more, events)
    requires i < |Ranked(c, Values(d, rows))| && i < |Ranked(c, Values(d, more))|
    requires Ranked(c, Values(d, rows))[..i] == Ranked(c, Values(d, more))[..i]
    requires Ranked(c, Values(d, rows))[i] != Ranked(c, Values(d, more))[i]
    ensures var a := Ranked(c, Values(d, rows))[i].key;
      && Undecided(c, d, events, a, Ranked(c, Values(d, more))[i].key)
      && |AheadOf(c, d, events, a)| <= i
  {
    hide Ranked, AheadOf, FirstAt, WithKey, Values, IsReading;
    var r, t := Ranked(c, Values(d, rows)), Ranked(c, Values(d, more));
    ReadingIsRanking(c, d, rows, events);
    ReadingIsRanking(c, d, more, events);
    var x, y := r[i], t[i];
    MovedBack(c, d, events, more, r, i);
    MovedBack(c, d, events, rows, t, i);
    AheadStandBefore(c, d, rows, events, i);
    PrefixKeys(r, i);
    SubsetSize(AheadOf(c, d, events, x.key), KeysOf(r[..i]));
    assert !Ahead(c, d, events, x, y) && !Ahead(c, d, events, y, x);
  }

  /** What stands at i in another ranking comes at i or later in this one. */
  lemma MovedBack(c: Collation, d: Dimension, events: set<Event>, rows: seq<Event>, other: seq<Count>, i: nat)
    requires IsReading(rows, events) && IsRanking(c, d, events, other)
    requires i < |other| && i < |Ranked(c, Values(d, rows))| && Ranked(c, Values(d, rows))[..i] == other[..i]
    ensures !Ahead(c, d, events, other[i], Ranked(c, Values(d, rows))[i])
  {
    hide Ranked, Ahead, WithKey, Values, IsReading, Before;
    var full := Ranked(c, Values(d, rows));
    ReadingIsRanking(c, d, rows, events);
    RankingMembers(c, d, events, other, full, other[i]);
    assert forall k :: 0 <= k < i ==> full[..i][k] == full[k] && other[..i][k] == other[k];
    assert forall k :: 0 <= k < i ==> other[k] != other[i];
    var j :| 0 <= j < |full| && full[j] == other[i];
    NeverAhead(c, d, rows, events, i, j);
  }

  lemma {:induction false} SamePrefix(c: Collation, d: Dimension, events: set<Event>, rows: seq<Event>,
                                      more: seq<Event>, limit: nat, i: nat)
    requires IsReading(rows, events) && IsReading(more, events) && Decided(c, d, events, limit)
    requires i <= limit && i <= |Ranked(c, Values(d, rows))| && i <= |Ranked(c, Values(d, more))|
    ensures Ranked(c, Values(d, rows))[..i] == Ranked(c, Values(d, more))[..i]
  {
    hide Ranked, Undecided, AheadOf, IsReading, Values;
    if i > 0 {
      var r, t := Ranked(c, Values(d, rows)), Ranked(c, Values(d, more));
      SamePrefix(c, d, events, rows, more, limit, i - 1);
      if r[i - 1] != t[i - 1] {
        DifferenceIsUndecided(c, d, events, rows, more, i - 1);
      }
      assert r[..i] == r[..i - 1] + [r[i - 1]] && t[..i] == t[..i - 1] + [t[i - 1]];
    }
  }

  lemma SameKeys(c: Collation, d: Dimension, events: set<Event>, a: seq<Count>, b: seq<Count>)
    requires IsRanking(c, d, events, a) && IsRanking(c, d, events, b)
    ensures |a| == |b|
  {
    KeysOfSize(a);
    KeysOfSize(b);
    forall x ensures x in a <==> x in b {
      if x in a { RankingMembers(c, d, events, a, b, x); }
      if x in b { RankingMembers(c, d, events, b, a, x); }
    }
    assert KeysOf(a) == KeysOf(b);
  }

  lemma DecidedListsAgree(c: Collation, d: Dimension, events: set<Event>, rows: seq<Event>, more: seq<Event>,
                          limit: nat)
    requires IsReading(rows, events) && IsReading(more, events) && Decided(c, d, events, limit)
    ensures ListOf(c, d, rows, limit) == ListOf(c, d, more, limit)
  {
    hide Ranked, Decided, IsReading, Values;
    var r, t := Ranked(c, Values(d, rows)), Ranked(c, Values(d, more));
    ReadingIsRanking(c, d, rows, events);
    ReadingIsRanking(c, d, more, events);
    SameKeys(c, d, events, r, t);
    var n := if |r| <= limit then |r| else limit;
    SamePrefix(c, d, events, rows, more, limit, n);
    assert r[..|r|] == r && t[..|t|] == t;
  }

  // ----- two readings that differ -----

  predicate AllEarlier(rows: seq<Event>, i: nat, instant: int)
    requires i <= |rows|
  {
    forall j :: 0 <= j < i ==> rows[j].occurredAt < instant
  }

  /** A reading in which an event is the first of its instant. */
  lemma {:induction false} ReadingWithFirst(events: set<Event>, e: Event) returns (rows: seq<Event>)
    ensures IsReading(rows, events)
    ensures e in events ==> exists i :: 0 <= i < |rows| && rows[i] == e && AllEarlier(rows, i, e.occurredAt)
    decreases |events|
  {
    hide IsReading, IsFirstOf, AllEarlier;
    if events == {} {
      rows := [];
      NoRows();
    } else {
      SomeFirst(events);
      var m :| IsFirstOf(events, m);
      var pick := if e in events && e.occurredAt == m.occurredAt then e else m;
      AlsoFirst(events, m, e);
      var rest := ReadingWithFirst(events - {pick}, e);
      rows := [pick] + rest;
      ReadingOnto(pick, rest, events);
      if e == pick {
        NoneEarlier(rows, e.occurredAt);
        assert rows[0] == e;
      } else if e in events {
        var i :| 0 <= i < |rest| && rest[i] == e && AllEarlier(rest, i, e.occurredAt);
        OneMoreEarlier(pick, rest, i, e.occurredAt);
        assert rows[i + 1] == e;
      }
    }
  }

  lemma NoRows()
    ensures IsReading([], {})
  {
  }

  lemma NoneEarlier(rows: seq<Event>, instant: int)
    ensures AllEarlier(rows, 0, instant)
  {
  }

  /** Another event of the first instant is first as well, and any later one is later. */
  lemma AlsoFirst(events: set<Event>, m: Event, e: Event)
    requires IsFirstOf(events, m)
    ensures m in events
    ensures e in events && e.occurredAt == m.occurredAt ==> IsFirstOf(events, e)
    ensures e in events && e.occurredAt != m.occurredAt ==> m.occurredAt < e.occurredAt
  {
  }

  lemma OneMoreEarlier(first: Event, rest: seq<Event>, i: nat, instant: int)
    requires i <= |rest| && first.occurredAt < instant && AllEarlier(rest, i, instant)
    ensures AllEarlier([first] + rest, i + 1, instant)
  {
    assert forall j :: 0 < j < i + 1 ==> ([first] + rest)[j] == rest[j - 1];
  }

  lemma ReadingOnto(e: Event, rest: seq<Event>, events: set<Event>)
    requires IsFirstOf(events, e) && IsReading(rest, events - {e})
    ensures IsReading([e] + rest, events)
  {
    var rows := [e] + rest;
    assert forall x :: x in rest <==> x in events - {e};
    forall i, j | 0 <= i < j < |rows| ensures rows[i] != rows[j] && rows[i].occurredAt <= rows[j].occurredAt {
      assert rows[j] == rest[j - 1] && rest[j - 1] in rest;
      assert i > 0 ==> rows[i] == rest[i - 1];
    }
    assert Members(rows) == {e} + Members(rest);
  }

  /** When the first event of a value is the first of its instant, only what is ahead of the value stands before it. */
  lemma FirstPlace(c: Collation, d: Dimension, events: set<Event>, rows: seq<Event>, at: nat, key: string)
    requires IsReading(rows, events) && at < |rows| && ValueOf(d, rows[at]) == Some(key)
    requires AllEarlier(rows, at, FirstAt(d, events, key))
    ensures var full, m := Ranked(c, Values(d, rows)), |AheadOf(c, d, events, key)|; m < |full| && full[m].key == key
  {
    hide Ranked, AheadOf, FirstAt;
    var values := Values(d, rows);
    var full := Ranked(c, values);
    ReadingIsRanking(c, d, rows, events);
    assert values[at] == Some(key) && FirstIndex(values, key) <= at;
    assert rows[at] in Members(rows);
    assert Count(key, |WithKey(d, events, key)|) in full;
    hide IsReading, FirstIndex, WithKey, Values;
    var i :| 0 <= i < |full| && full[i].key == key;
    AheadStandBefore(c, d, rows, events, i);
    OnlyAheadBefore(c, d, rows, events, i);
    assert AheadOf(c, d, events, full[i].key) == KeysOf(full[..i]);
    PrefixKeys(full, i);
  }

  lemma PlacedFirst(c: Collation, d: Dimension, events: set<Event>, key: string) returns (rows: seq<Event>)
    requires WithKey(d, events, key) != {}
    ensures IsReading(rows, events)
    ensures var full, m := Ranked(c, Values(d, rows)), |AheadOf(c, d, events, key)|; m < |full| && full[m].key == key
  {
    hide Ranked, AheadOf, IsReading, FirstAt;
    SomeFirst(WithKey(d, events, key));
    var e :| IsFirstOf(WithKey(d, events, key), e);
    FirstAtIs(d, events, e, key);
    rows := ReadingWithFirst(events, e);
    var at :| 0 <= at < |rows| && rows[at] == e && AllEarlier(rows, at, e.occurredAt);
    FirstPlace(c, d, events, rows, at, key);
  }

  lemma SameAhead(c: Collation, d: Dimension, events: set<Event>, a: string, b: string)
    requires Undecided(c, d, events, a, b)
    ensures AheadOf(c, d, events, a) == AheadOf(c, d, events, b)
  {
    hide FirstAt, WithKey;
    var p, q := CountOf(d, events, a), CountOf(d, events, b);
    forall x: Count ensures Ahead(c, d, events, x, p) == Ahead(c, d, events, x, q) {
      AheadOfTied(c, d, events, x, p, q);
    }
  }

  lemma AheadOfTied(c: Collation, d: Dimension, events: set<Event>, x: Count, a: Count, b: Count)
    requires Tied(Before(c), a, b) && FirstAt(d, events, a.key) == FirstAt(d, events, b.key)
    ensures Ahead(c, d, events, x, a) == Ahead(c, d, events, x, b)
  {
    hide FirstAt, Before;
    BeforeIsWeakOrder(c);
    if Before(c)(x, a) { BeforeTied(Before(c), x, a, b); }
    if Before(c)(x, b) { BeforeTied(Before(c), x, b, a); }
    assert Tied(Before(c), b, a);
    assert Tied(Before(c), x, a) <==> Tied(Before(c), x, b);
  }

  /** Each of the two values can be the first of its instant, and then takes the same place. */
  lemma UndecidedListsDiffer(c: Collation, d: Dimension, events: set<Event>, a: string, b: string, limit: nat)
    returns (rows: seq<Event>, more: seq<Event>)
    requires Undecided(c, d, events, a, b) && |AheadOf(c, d, events, a)| < limit
    ensures IsReading(rows, events) && IsReading(more, events)
    ensures ListOf(c, d, rows, limit) != ListOf(c, d, more, limit)
  {
    hide Ranked, AheadOf, IsReading, FirstAt, Values;
    rows := PlacedFirst(c, d, events, a);
    more := PlacedFirst(c, d, events, b);
    SameAhead(c, d, events, a, b);
    var m := |AheadOf(c, d, events, a)|;
    assert ListOf(c, d, rows, limit)[m].key == a && ListOf(c, d, more, limit)[m].key == b;
  }

  /** All readings give one list exactly when no two values that nothing decides between reach the cut. */
  lemma ListsAgree(c: Collation, d: Dimension, events: set<Event>, limit: nat)
    ensures (forall rows, more :: IsReading(rows, events) && IsReading(more, events) ==>
               ListOf(c, d, rows, limit) == ListOf(c, d, more, limit))
            <==> Decided(c, d, events, limit)
  {
    hide IsReading, ListOf, Undecided, AheadOf;
    if Decided(c, d, events, limit) {
      forall rows, more | IsReading(rows, events) && IsReading(more, events)
        ensures ListOf(c, d, rows, limit) == ListOf(c, d, more, limit)
      {
        DecidedListsAgree(c, d, events, rows, more, limit);
      }
    } else {
      var a, b :| Undecided(c, d, events, a, b) && |AheadOf(c, d, events, a)| < limit;
      var rows, more := UndecidedListsDiffer(c, d, events, a, b, limit);
    }
  }

  /**
   All readings give one full ranking exactly when any two values of equal count that the collation ties are first seen
   at different instants.
  */
  lemma RankingsAgree(c: Collation, d: Dimension, events: set<Event>)
    ensures (forall rows, more :: IsReading(rows, events) && IsReading(more, events) ==>
               Ranked(c, Values(d, rows)) == Ranked(c, Values(d, more)))
            <==> forall a, b :: !Undecided(c, d, events, a, b)
  {
    hide IsReading, Ranked, Undecided, AheadOf, Values;
    var limit := |events| + 1;
    forall rows | IsReading(rows, events) ensures ListOf(c, d, rows, limit) == Ranked(c, Values(d, rows)) {
      RankingFits(c, d, rows, events);
    }
    forall a, b | Undecided(c, d, events, a, b) ensures |AheadOf(c, d, events, a)| < limit {
      var rows := PlacedFirst(c, d, events, a) by { Occurs(c, d, events, a, b); }
      RankingFits(c, d, rows, events);
    }
    ListsAgree(c, d, events, limit);
  }

  lemma Occurs(c: Collation, d: Dimension, events: set<Event>, a: string, b: string)
    requires Undecided(c, d, events, a, b)
    ensures WithKey(d, events, a) != {}
  {
  }

  lemma RankingFits(c: Collation, d: Dimension, rows: seq<Event>, events: set<Event>)
    requires IsReading(rows, events)
    ensures |Ranked(c, Values(d, rows))| <= |events|
  {
    hide Ranked, Values;
    ReadingIsRanking(c, d, rows, events);
    RankingSums(c, d, events, Ranked(c, Values(d, rows)));
    SubsetSize(Having(d, events), events);
  }

  // ----- an input -----

  function CommandEvent(id: string, command: string): Event {
    Event(id, 0, Mcp, Miner, "tool_called", Success, None, None, None, Some(command), None, None, [])
  }

  /** Two commands that the collation ties, once each at one instant: the list is in the order the rows come in. */
  lemma TiedListsDiffer(c: Collation, p: string, q: string)
    requires p != q && p != "" && q != "" && Tied(c, p, q)
    ensures var x, y := CommandEvent("1", p), CommandEvent("2", q);
      && IsReading([x, y], {x, y}) && IsReading([y, x], {x, y})
      && ListOf(c, ByCommand, [x, y], 20) == [Count(p, 1), Count(q, 1)]
      && ListOf(c, ByCommand, [y, x], 20) == [Count(q, 1), Count(p, 1)]
  {
    var x, y := CommandEvent("1", p), CommandEvent("2", q);
    TwoRows(c, x, y, p, q);
    TwoRows(c, y, x, q, p);
    assert {x, y} == {y, x};
  }

  lemma TwoKeys(p: string, q: string)
    requires p != q && p != "" && q != ""
    ensures var values := [Some(p), Some(q)];
      FirstKeys(values) == [p, q] && Occurrences(values, p) == Occurrences(values, q) == 1
  {
    var values, one: seq<Option<string>>, none: seq<Option<string>> := [Some(p), Some(q)], [Some(p)], [];
    assert values[..1] == one && one[..0] == none;
    assert FirstKeys(none) == [] && FirstKeys(one) == [p];
    assert q !in FirstKeys(one);
    assert Occurrences(one, p) == 1 && Occurrences(one, q) == 0;
  }

  lemma TwoRows(c: Collation, x: Event, y: Event, p: string, q: string)
    requires p != q && p != "" && q != "" && Tied(c, p, q)
    requires ValueOf(ByCommand, x) == Some(p) && ValueOf(ByCommand, y) == Some(q) && x.occurredAt == y.occurredAt
    ensures IsReading([x, y], {x, y}) && ListOf(c, ByCommand, [x, y], 20) == [Count(p, 1), Count(q, 1)]
  {
    var rows := [x, y];
    var values := Values(ByCommand, rows);
    assert Members(rows) == {x, y};
    assert values == [Some(p), Some(q)];
    hide FirstKeys, Occurrences, ValueOf;
    TwoKeys(p, q);
    var entries := Counted(values);
    assert entries == [Count(p, 1), Count(q, 1)];
    SortOfSettled(Before(c), entries);
  }
}
