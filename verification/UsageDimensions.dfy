/**
 Product usage events and the per-day dimension lists of their rollup (src/db/repositories.ts).
 Instants are milliseconds since the epoch and days are counted from it.
*/
module UsageDimensions {
  import opened Options
  import opened Sorting

  datatype Surface = Api | Mcp | GithubApp | ControlPanel | BrowserExtension | Internal

  datatype EventOutcome = Success | Denied | Failed | Queued | Completed | Skipped

  datatype Role = Miner | Maintainer | Owner | Operator | Contributor | Unknown

  /** A stored event. roleHints holds the roles named by its metadata, already normalised. */
  datatype Event = Event(
    id: string, occurredAt: int, surface: Surface, role: Role, eventName: string, outcome: EventOutcome,
    actorHash: Option<string>, sessionHash: Option<string>, repoFullName: Option<string>,
    command: Option<string>, toolName: Option<string>, route: Option<string>, roleHints: seq<Role>)

  function SurfaceName(s: Surface): string {
    match s
    case Api => "api" case Mcp => "mcp" case GithubApp => "github_app"
    case ControlPanel => "control_panel" case BrowserExtension => "browser_extension" case Internal => "internal"
  }

  function OutcomeName(o: EventOutcome): string {
    match o
    case Success => "success" case Denied => "denied" case Failed => "error"
    case Queued => "queued" case Completed => "completed" case Skipped => "skipped"
  }

  function RouteClass(route: Option<string>): string {
    if route.None? || route.value == "" then "unknown"
    else
      var r := route.value;
      if r == "/health" then "health"
      else if "/v1/auth/" <= r then "auth"
      else if r == "/mcp" || "/v1/mcp/" <= r then "mcp"
      else if "/v1/app/" <= r then "control_panel"
      else if "/v1/agent/" <= r then "agent"
      else if "/v1/extension/" <= r then "browser_extension"
      else if "/v1/github/" <= r then "github_app"
      else if "/v1/internal/" <= r then "internal"
      else if "/v1/repos/" <= r then "repository"
      else "api"
  }

  datatype Dimension = BySurface | ByOutcome | ByEvent | ByRepo | ByCommand | ByTool | ByRouteClass

  function NonEmpty(value: Option<string>): Option<string> {
    if value.Some? && value.value != "" then value else None
  }

  /** The value an event counts under, or None when it is skipped as falsy. */
  function ValueOf(d: Dimension, e: Event): Option<string> {
    match d
    case BySurface => Some(SurfaceName(e.surface))
    case ByOutcome => Some(OutcomeName(e.outcome))
    case ByEvent => NonEmpty(Some(e.eventName))
    case ByRepo => NonEmpty(e.repoFullName)
    case ByCommand => NonEmpty(e.command)
    case ByTool => NonEmpty(e.toolName)
    case ByRouteClass => Some(RouteClass(e.route))
  }

  /** Which field each dimension counts, and what it skips. */
  lemma DimensionsMean(e: Event)
    ensures ValueOf(BySurface, e) == Some(SurfaceName(e.surface))
    ensures ValueOf(ByOutcome, e) == Some(OutcomeName(e.outcome))
    ensures ValueOf(ByEvent, e) == (if e.eventName == "" then None else Some(e.eventName))
    ensures ValueOf(ByRepo, e) == (if e.repoFullName == Some("") then None else e.repoFullName)
    ensures ValueOf(ByCommand, e) == (if e.command == Some("") then None else e.command)
    ensures ValueOf(ByTool, e) == (if e.toolName == Some("") then None else e.toolName)
    ensures ValueOf(ByRouteClass, e) == Some(RouteClass(e.route))
  {
  }

  /** The stored names, each of one surface and one outcome. */
  lemma NamesMean(s: Surface, o: EventOutcome)
    ensures SurfaceName(s) == "api" <==> s == Api
    ensures SurfaceName(s) == "mcp" <==> s == Mcp
    ensures SurfaceName(s) == "github_app" <==> s == GithubApp
    ensures SurfaceName(s) == "control_panel" <==> s == ControlPanel
    ensures SurfaceName(s) == "browser_extension" <==> s == BrowserExtension
    ensures SurfaceName(s) == "internal" <==> s == Internal
    ensures OutcomeName(o) == "success" <==> o == Success
    ensures OutcomeName(o) == "denied" <==> o == Denied
    ensures OutcomeName(o) == "error" <==> o == Failed
    ensures OutcomeName(o) == "queued" <==> o == Queued
    ensures OutcomeName(o) == "completed" <==> o == Completed
    ensures OutcomeName(o) == "skipped" <==> o == Skipped
  {
    NameHeads(s, o);
  }

  lemma NameHeads(s: Surface, o: EventOutcome)
    ensures SurfaceName(s)[0] == (match s case Api => 'a' case Mcp => 'm' case GithubApp => 'g'
                                  case ControlPanel => 'c' case BrowserExtension => 'b' case Internal => 'i')
    ensures OutcomeName(o)[..2] == (match o case Success => "su" case Denied => "de" case Failed => "er"
                                    case Queued => "qu" case Completed => "co" case Skipped => "sk")
  {
  }

  lemma PrefixLetters(head: string, route: string)
    requires |head| > 5 && head[1] == 'v'
    ensures head <= route ==> |route| > 5 && route[1] == 'v' && route[4] == head[4] && route[5] == head[5]
  {
  }

  /** At most one of the heads fits a route, and neither of the two whole routes has one. */
  lemma RouteLetters(route: string)
    ensures "/v1/auth/" <= route ==> |route| > 5 && route[1] == 'v' && route[4] == 'a' && route[5] == 'u'
    ensures "/v1/mcp/" <= route ==> |route| > 5 && route[1] == 'v' && route[4] == 'm' && route[5] == 'c'
    ensures "/v1/app/" <= route ==> |route| > 5 && route[1] == 'v' && route[4] == 'a' && route[5] == 'p'
    ensures "/v1/agent/" <= route ==> |route| > 5 && route[1] == 'v' && route[4] == 'a' && route[5] == 'g'
    ensures "/v1/extension/" <= route ==> |route| > 5 && route[1] == 'v' && route[4] == 'e' && route[5] == 'x'
    ensures "/v1/github/" <= route ==> |route| > 5 && route[1] == 'v' && route[4] == 'g' && route[5] == 'i'
    ensures "/v1/internal/" <= route ==> |route| > 5 && route[1] == 'v' && route[4] == 'i' && route[5] == 'n'
    ensures "/v1/repos/" <= route ==> |route| > 5 && route[1] == 'v' && route[4] == 'r' && route[5] == 'e'
  {
    PrefixLetters("/v1/auth/", route);
    PrefixLetters("/v1/mcp/", route);
    PrefixLetters("/v1/app/", route);
    PrefixLetters("/v1/agent/", route);
    PrefixLetters("/v1/extension/", route);
    PrefixLetters("/v1/github/", route);
    PrefixLetters("/v1/internal/", route);
    PrefixLetters("/v1/repos/", route);
  }

  /** The class of a route by its first segments, whatever follows them. */
  lemma RouteClassesMean(route: string)
    ensures RouteClass(None) == RouteClass(Some("")) == "unknown"
    ensures RouteClass(Some("/health")) == "health" && RouteClass(Some("/mcp")) == "mcp"
    ensures "/v1/auth/" <= route ==> RouteClass(Some(route)) == "auth"
    ensures "/v1/mcp/" <= route ==> RouteClass(Some(route)) == "mcp"
    ensures "/v1/app/" <= route ==> RouteClass(Some(route)) == "control_panel"
    ensures "/v1/agent/" <= route ==> RouteClass(Some(route)) == "agent"
    ensures "/v1/extension/" <= route ==> RouteClass(Some(route)) == "browser_extension"
    ensures "/v1/github/" <= route ==> RouteClass(Some(route)) == "github_app"
    ensures "/v1/internal/" <= route ==> RouteClass(Some(route)) == "internal"
    ensures "/v1/repos/" <= route ==> RouteClass(Some(route)) == "repository"
  {
    RouteLetters(route);
    assert "/health"[1] == 'h' && "/mcp"[1] == 'm';
  }

  /** Every other route is of the API. */
  lemma OtherRoutesAreApi(route: string)
    requires route != "" && route != "/health" && route != "/mcp"
    requires !("/v1/auth/" <= route) && !("/v1/mcp/" <= route) && !("/v1/app/" <= route) && !("/v1/agent/" <= route)
    requires !("/v1/extension/" <= route) && !("/v1/github/" <= route) && !("/v1/internal/" <= route)
    requires !("/v1/repos/" <= route)
    ensures RouteClass(Some(route)) == "api"
  {
  }

  // ----- rankings -----

  datatype Count = Count(key: string, count: nat)

  /** When `localeCompare` puts one string before another; it may tie on strings that differ. */
  type Collation = before: (string, string) -> bool | WeakOrder(before) witness (a: string, b: string) => false

  /** `b.count - a.count || a.key.localeCompare(b.key)`. */
  function Before(c: Collation): (Count, Count) -> bool {
    (a: Count, b: Count) => a.count > b.count || (a.count == b.count && c(a.key, b.key))
  }

  lemma BeforeIsWeakOrder(c: Collation)
    ensures WeakOrder(Before(c))
  {
    assert WeakOrder(c);
    forall x: Count, y: Count, z: Count
      ensures !Before(c)(x, x) && (Before(c)(x, y) && Before(c)(y, z) ==> Before(c)(x, z))
      ensures Tied(Before(c), x, y) && Tied(Before(c), y, z) ==> Tied(Before(c), x, z)
    {
      assert !c(x.key, x.key) && (c(x.key, y.key) && c(y.key, z.key) ==> c(x.key, z.key));
      assert Tied(c, x.key, y.key) && Tied(c, y.key, z.key) ==> Tied(c, x.key, z.key);
    }
  }

  /** The events that have a value on a dimension, and those that have this value. */
  ghost function Having(d: Dimension, events: set<Event>): set<Event> {
    set e | e in events && ValueOf(d, e).Some?
  }

  ghost function WithKey(d: Dimension, events: set<Event>, key: string): set<Event> {
    set e | e in events && ValueOf(d, e) == Some(key)
  }

  ghost predicate DistinctKeys(list: seq<Count>) {
    forall i, j :: 0 <= i < j < |list| ==> list[i].key != list[j].key
  }

  /** Every value that occurs, once, with the number of events that have it, most frequent first. */
  ghost predicate IsRanking(c: Collation, d: Dimension, events: set<Event>, full: seq<Count>) {
    && DistinctKeys(full) && Settled(Before(c), full)
    && (forall i :: 0 <= i < |full| ==> full[i].count == |WithKey(d, events, full[i].key)| > 0)
    && (forall e :: e in events && ValueOf(d, e).Some? ==>
          Count(ValueOf(d, e).value, |WithKey(d, events, ValueOf(d, e).value)|) in full)
  }

  function Sum(list: seq<Count>): nat {
    if list == [] then 0 else list[0].count + Sum(list[1..])
  }

  lemma RankingMembers(c: Collation, d: Dimension, events: set<Event>, a: seq<Count>, b: seq<Count>, x: Count)
    requires IsRanking(c, d, events, a) && IsRanking(c, d, events, b) && x in a
    ensures x in b
  {
    var i :| 0 <= i < |a| && a[i] == x;
    var s := WithKey(d, events, x.key);
    var e :| e in s;
    assert ValueOf(d, e) == Some(x.key);
  }

  lemma HavingSplit(d: Dimension, events: set<Event>, key: string)
    ensures |Having(d, events)| == |WithKey(d, events, key)| + |Having(d, events - WithKey(d, events, key))|
  {
    var gone := WithKey(d, events, key);
    assert Having(d, events) == gone + Having(d, events - gone);
  }

  lemma NothingHas(c: Collation, d: Dimension, events: set<Event>)
    requires IsRanking(c, d, events, [])
    ensures |Having(d, events)| == 0
  {
    forall e ensures e !in Having(d, events) {
    }
    assert Having(d, events) == {};
  }

  lemma RankingHead(c: Collation, d: Dimension, events: set<Event>, full: seq<Count>)
    requires IsRanking(c, d, events, full) && full != []
    ensures full[0].count == |WithKey(d, events, full[0].key)| > 0
  {
  }

  /** A full ranking accounts for every event that has a value. */
  lemma {:induction false} RankingSums(c: Collation, d: Dimension, events: set<Event>, full: seq<Count>)
    requires IsRanking(c, d, events, full)
    ensures Sum(full) == |Having(d, events)| && |full| <= |Having(d, events)|
    decreases |full|
  {
    hide IsRanking, Having, WithKey;
    if full == [] {
      NothingHas(c, d, events);
    } else {
      RankingHead(c, d, events, full);
      RankingTail(c, d, events, full);
      RankingSums(c, d, events - WithKey(d, events, full[0].key), full[1..]);
      HavingSplit(d, events, full[0].key);
    }
  }

  lemma RankingTail(c: Collation, d: Dimension, events: set<Event>, full: seq<Count>)
    requires IsRanking(c, d, events, full) && full != []
    ensures IsRanking(c, d, events - WithKey(d, events, full[0].key), full[1..])
  {
    var head, tail := full[0], full[1..];
    var gone := WithKey(d, events, head.key);
    var rest := events - gone;
    forall i | 0 <= i < |tail| ensures tail[i].count == |WithKey(d, rest, tail[i].key)| > 0 {
      assert tail[i] == full[i + 1] && tail[i].key != head.key;
      assert WithKey(d, rest, tail[i].key) == WithKey(d, events, tail[i].key);
    }
    forall e | e in rest && ValueOf(d, e).Some?
      ensures Count(ValueOf(d, e).value, |WithKey(d, rest, ValueOf(d, e).value)|) in tail
    {
      var k := ValueOf(d, e).value;
      assert WithKey(d, rest, k) == WithKey(d, events, k);
      var x := Count(k, |WithKey(d, events, k)|);
      var i :| 0 <= i < |full| && full[i] == x;
      assert tail[i - 1] == x;
    }
  }

  // ----- counting rows -----

  /** How often a non-empty value occurs. */
  function Occurrences(values: seq<Option<string>>, key: string): nat {
    if values == [] then 0
    else Occurrences(values[..|values| - 1], key)
         + if key != "" && values[|values| - 1] == Some(key) then 1 else 0
  }

  ghost predicate IsRankingOf(c: Collation, values: seq<Option<string>>, full: seq<Count>) {
    && DistinctKeys(full) && Settled(Before(c), full)
    && (forall i :: 0 <= i < |full| ==> full[i].count == Occurrences(values, full[i].key) > 0)
    && (forall key :: Occurrences(values, key) > 0 ==> Count(key, Occurrences(values, key)) in full)
  }

  function Entries(order: seq<string>, counts: map<string, nat>): (entries: seq<Count>)
    requires forall k :: k in order ==> k in counts
    ensures |entries| == |order| && forall i :: 0 <= i < |order| ==> entries[i] == Count(order[i], counts[order[i]])
  {
    seq(|order|, i requires 0 <= i < |order| => Count(order[i], counts[order[i]]))
  }

  /** The non-empty values in the order of their first occurrence: the keys of the Map. */
  function FirstKeys(values: seq<Option<string>>): seq<string> {
    if values == [] then []
    else
      var n := |values| - 1;
      var past := FirstKeys(values[..n]);
      if values[n].Some? && values[n].value != "" && values[n].value !in past then past + [values[n].value] else past
  }

  function Counted(values: seq<Option<string>>): seq<Count> {
    seq(|FirstKeys(values)|, i requires 0 <= i < |FirstKeys(values)| =>
      Count(FirstKeys(values)[i], Occurrences(values, FirstKeys(values)[i])))
  }

  /** The full list for these values in this order; the sort is stable. */
  function Ranked(c: Collation, values: seq<Option<string>>): seq<Count> {
    SortBy(Before(c), Counted(values))
  }

  function Top<T>(list: seq<T>, limit: nat): seq<T> {
    if |list| <= limit then list else list[..limit]
  }

  lemma {:induction false} FirstKeysOccur(values: seq<Option<string>>)
    ensures Distinct(FirstKeys(values)) && forall k :: k in FirstKeys(values) <==> Occurrences(values, k) > 0
  {
    if values != [] {
      FirstKeysOccur(values[..|values| - 1]);
    }
  }

  /** The counting loop over a Map, then its entries sorted and cut. */
  method CountDimensions(c: Collation, values: seq<Option<string>>, limit: nat) returns (list: seq<Count>)
    ensures list == Top(Ranked(c, values), limit)
  {
    var counts: map<string, nat> := map[];
    var order: seq<string> := [];
    for i := 0 to |values|
      invariant order == FirstKeys(values[..i]) && forall k :: k in order <==> k in counts
      invariant forall k :: k in counts ==> counts[k] == Occurrences(values[..i], k)
    {
      FirstKeysOccur(values[..i]);
      assert values[..i + 1][..i] == values[..i];
      var value := values[i];
      if value.None? || value.value == "" { continue; }
      if value.value !in counts {
        order := order + [value.value];
      }
      counts := counts[value.value := (if value.value in counts then counts[value.value] else 0) + 1];
    }
    assert values[..|values|] == values;
    assert Entries(order, counts) == Counted(values);
    list := Top(SortBy(Before(c), Entries(order, counts)), limit);
  }

  lemma RankedIsRanking(c: Collation, values: seq<Option<string>>)
    ensures IsRankingOf(c, values, Ranked(c, values))
  {
    hide FirstKeys, Occurrences, SortBy;
    var entries, full := Counted(values), Ranked(c, values);
    FirstKeysOccur(values);
    BeforeIsWeakOrder(c);
    SortSettles(Before(c), entries);
    SortPermutes(Before(c), entries);
    PermutationDistinct(entries, full);
    MembersOf(full, entries);
    forall i, j | 0 <= i < j < |full| ensures full[i].key != full[j].key {
      assert full[i] in entries && full[j] in entries;
    }
    forall i | 0 <= i < |full| ensures full[i].count == Occurrences(values, full[i].key) > 0 {
      assert full[i] in entries;
    }
    forall key | Occurrences(values, key) > 0 ensures Count(key, Occurrences(values, key)) in full {
      var j :| 0 <= j < |FirstKeys(values)| && FirstKeys(values)[j] == key;
      assert entries[j] in entries;
    }
  }

  function Values(d: Dimension, rows: seq<Event>): (values: seq<Option<string>>)
    ensures |values| == |rows|
  {
    seq(|rows|, i requires 0 <= i < |rows| => ValueOf(d, rows[i]))
  }

  ghost function Members(rows: seq<Event>): set<Event> {
    set e | e in rows
  }

  /** Over distinct rows, occurrences of a value are the events that have it. */
  lemma {:induction false} OccurrencesAreEvents(d: Dimension, rows: seq<Event>, key: string)
    requires Distinct(rows)
    ensures Occurrences(Values(d, rows), key) == |WithKey(d, Members(rows), key)|
  {
    if rows == [] {
      assert WithKey(d, Members(rows), key) == {};
    } else {
      var n := |rows| - 1;
      var past, e := rows[..n], rows[n];
      OccurrencesAreEvents(d, past, key);
      assert Values(d, rows)[..n] == Values(d, past);
      assert Members(rows) == Members(past) + {e} && e !in past;
      ValuesAreNotEmpty(d, e);
      WithKeyAdd(d, Members(past), e, key);
    }
  }

  lemma ValuesAreNotEmpty(d: Dimension, e: Event)
    ensures ValueOf(d, e) != Some("")
  {
  }

  lemma WithKeyAdd(d: Dimension, events: set<Event>, e: Event, key: string)
    requires e !in events
    ensures |WithKey(d, events + {e}, key)| == |WithKey(d, events, key)| + if ValueOf(d, e) == Some(key) then 1 else 0
  {
    assert WithKey(d, events + {e}, key) == WithKey(d, events, key) + if ValueOf(d, e) == Some(key) then {e} else {};
  }

  lemma RankingOfRows(c: Collation, d: Dimension, rows: seq<Event>, full: seq<Count>)
    requires Distinct(rows) && IsRankingOf(c, Values(d, rows), full)
    ensures IsRanking(c, d, Members(rows), full)
  {
    hide ValueOf, WithKey, Occurrences;
    forall i | 0 <= i < |full| ensures full[i].count == |WithKey(d, Members(rows), full[i].key)| > 0 {
      OccurrencesAreEvents(d, rows, full[i].key);
    }
    forall e | e in Members(rows) && ValueOf(d, e).Some?
      ensures Count(ValueOf(d, e).value, |WithKey(d, Members(rows), ValueOf(d, e).value)|) in full
    {
      OccurrencesAreEvents(d, rows, ValueOf(d, e).value);
      SomeHaveKey(d, Members(rows), e);
    }
  }

  lemma SomeHaveKey(d: Dimension, events: set<Event>, e: Event)
    requires e in events && ValueOf(d, e).Some?
    ensures |WithKey(d, events, ValueOf(d, e).value)| > 0
  {
    assert e in WithKey(d, events, ValueOf(d, e).value);
  }
}
