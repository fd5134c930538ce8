/**
 Retained actors per window, surface and role, on top of the inference of actor roles
 (src/db/repositories.ts).
*/
module UsageRetention {
  import opened Instants
  import opened Options
  import opened Sequences
  import opened Sorting
  import opened UsageDimensions

  // ----- roles of an event -----

  const MINER_EVENTS: set<string> := {
    "local_branch_analysis_completed", "agent_run_started", "agent_plan_next_work_completed",
    "agent_preflight_branch_completed", "agent_pr_packet_completed", "agent_blockers_completed"}

  /** Roles the event names itself: its own, and those of its metadata, where "unknown" counts as a name. */
  function NamedRoles(e: Event): set<Role> {
    (if e.role != Unknown then {e.role} else {}) + set r | r in e.roleHints
  }

  /** Named roles, or else one role inferred from the kind of event. */
  function BaseRoles(e: Event): (roles: set<Role>)
    ensures roles != {}
  {
    var named := NamedRoles(e);
    if named != {} then named
    else if e.eventName == "github_installation_created" then {Owner}
    else if e.eventName == "extension_session_created" || e.eventName == "pull_context_viewed" then {Maintainer}
    else if e.surface == Mcp || e.eventName in MINER_EVENTS then {Miner}
    else if e.eventName == "pr_public_surface_published" then {Contributor}
    else {Unknown}
  }

  /** An event that names roles has exactly those: its own, unless unknown, and all hints. */
  lemma NamedRolesMean(e: Event, r: Role)
    requires e.role != Unknown || e.roleHints != []
    ensures r in BaseRoles(e) <==> (r == e.role && r != Unknown) || r in e.roleHints
  {
    if e.roleHints != [] {
      assert e.roleHints[0] in NamedRoles(e);
    } else {
      assert e.role in NamedRoles(e);
    }
  }

  /** Any other event has one role, by its name and surface. */
  lemma InferredRoleMeans(e: Event)
    requires e.role == Unknown && e.roleHints == []
    ensures e.eventName == "github_installation_created" ==> BaseRoles(e) == {Owner}
    ensures e.eventName in {"extension_session_created", "pull_context_viewed"} ==> BaseRoles(e) == {Maintainer}
    ensures (e.eventName in {
              "local_branch_analysis_completed", "agent_run_started", "agent_plan_next_work_completed",
              "agent_preflight_branch_completed", "agent_pr_packet_completed", "agent_blockers_completed"})
            ==> BaseRoles(e) == {Miner}
    ensures (e.surface == Mcp && e.eventName !in {
              "github_installation_created", "extension_session_created", "pull_context_viewed"})
            ==> BaseRoles(e) == {Miner}
    ensures e.surface != Mcp && e.eventName == "pr_public_surface_published" ==> BaseRoles(e) == {Contributor}
    ensures (e.surface != Mcp && e.eventName !in {
              "github_installation_created", "extension_session_created", "pull_context_viewed",
              "pr_public_surface_published", "local_branch_analysis_completed", "agent_run_started",
              "agent_plan_next_work_completed", "agent_preflight_branch_completed", "agent_pr_packet_completed",
              "agent_blockers_completed"})
            ==> BaseRoles(e) == {Unknown}
  {
    assert NamedRoles(e) == {};
    EventNamesDiffer();
  }

  lemma EventNamesDiffer()
    ensures "github_installation_created" !in MINER_EVENTS && "extension_session_created" !in MINER_EVENTS
    ensures "pull_context_viewed" !in MINER_EVENTS && "pr_public_surface_published" !in MINER_EVENTS
  {
    assert "github_installation_created"[0] == 'g' && "extension_session_created"[0] == 'e';
    assert "pull_context_viewed"[0] == "pr_public_surface_published"[0] == 'p';
    assert forall n :: n in MINER_EVENTS ==> n[0] in {'l', 'a'};
  }

  predicate ByActor(e: Event, actor: string) {
    actor != "" && e.actorHash == Some(actor)
  }

  /** Roles other than "unknown" that some event of the actor has. */
  function KnownRoles(events: seq<Event>, actor: string): set<Role> {
    set e, r | e in events && ByActor(e, actor) && r in BaseRoles(e) && r != Unknown :: r
  }

  /** Actors with a known role, and all their known roles. */
  ghost predicate AreActorRoles(roles: map<string, set<Role>>, events: seq<Event>) {
    && (forall a :: a in roles <==> KnownRoles(events, a) != {})
    && (forall a :: a in roles ==> roles[a] == KnownRoles(events, a))
  }

  /** The Map-filling loop. */
  method RolesByActor(events: seq<Event>) returns (roles: map<string, set<Role>>)
    ensures AreActorRoles(roles, events)
  {
    hide KnownRoles, BaseRoles;
    roles := map[];
    NoRolesYet(events);
    for i := 0 to |events|
      invariant AreActorRoles(roles, events[..i])
    {
      var e := events[i];
      forall a ensures KnownRoles(events[..i + 1], a)
                       == KnownRoles(events[..i], a) + if ByActor(e, a) then BaseRoles(e) - {Unknown} else {} {
        KnownRolesStep(events, i, a);
      }
      if e.actorHash.None? || e.actorHash.value == "" { continue; }
      var known := BaseRoles(e) - {Unknown};
      if known == {} { continue; }
      var actor := e.actorHash.value;
      roles := roles[actor := (if actor in roles then roles[actor] else {}) + known];
    }
    assert events[..|events|] == events;
  }

  lemma NoRolesYet(events: seq<Event>)
    ensures AreActorRoles(map[], events[..0])
  {
    assert forall a :: KnownRoles(events[..0], a) == {};
  }

  lemma KnownRolesStep(events: seq<Event>, i: nat, a: string)
    requires i < |events|
    ensures KnownRoles(events[..i + 1], a)
            == KnownRoles(events[..i], a) + if ByActor(events[i], a) then BaseRoles(events[i]) - {Unknown} else {}
  {
    hide BaseRoles;
    assert events[..i + 1] == events[..i] + [events[i]];
  }

  /** An event that is only unknown takes over the known roles of its actor in the same list. */
  function RolesFor(e: Event, events: seq<Event>): set<Role> {
    if BaseRoles(e) == {Unknown} && e.actorHash.Some? && KnownRoles(events, e.actorHash.value) != {}
    then KnownRoles(events, e.actorHash.value)
    else BaseRoles(e)
  }

  /** Some event of the actor has the role. */
  ghost predicate Plays(events: seq<Event>, actor: string, r: Role) {
    r != Unknown && exists e :: e in events && e.actorHash == Some(actor) && actor != "" && r in BaseRoles(e)
  }

  /** Only an event that is nothing but unknown takes roles over, and all those its actor plays elsewhere. */
  lemma EventRolesMean(e: Event, events: seq<Event>, r: Role)
    ensures BaseRoles(e) != {Unknown} || e.actorHash.None? ==> RolesFor(e, events) == BaseRoles(e)
    ensures BaseRoles(e) == {Unknown} && e.actorHash.Some? ==>
              var actor := e.actorHash.value;
              (r in RolesFor(e, events) <==>
               if exists q :: Plays(events, actor, q) then Plays(events, actor, r) else r == Unknown)
  {
    hide BaseRoles;
    if e.actorHash.Some? {
      var actor := e.actorHash.value;
      assert forall q :: q in KnownRoles(events, actor) <==> Plays(events, actor, q);
    }
  }

  // ----- actors -----

  function ActorsOf(events: seq<Event>): set<string> {
    set e | e in events && NonEmpty(e.actorHash).Some? :: e.actorHash.value
  }

  function HasRole(context: seq<Event>, role: Role): Event -> bool {
    (e: Event) => role in RolesFor(e, context)
  }

  /** The events that count under a role, when actor roles are inferred from `context`. */
  function WithRole(events: seq<Event>, context: seq<Event>, role: Role): seq<Event> {
    Filter(HasRole(context, role), events)
  }

  function IsOn(surface: Surface): Event -> bool {
    (e: Event) => e.surface == surface
  }

  function OnSurface(events: seq<Event>, surface: Surface): seq<Event> {
    Filter(IsOn(surface), events)
  }

  function NotBefore(start: int): Event -> bool {
    (e: Event) => e.occurredAt >= start
  }

  function Since(events: seq<Event>, start: int): seq<Event> {
    Filter(NotBefore(start), events)
  }

  lemma FilterMembers(events: seq<Event>, context: seq<Event>, role: Role, surface: Surface, start: int, e: Event)
    ensures e in WithRole(events, context, role) <==> e in events && role in RolesFor(e, context)
    ensures e in OnSurface(events, surface) <==> e in events && e.surface == surface
    ensures e in Since(events, start) <==> e in events && e.occurredAt >= start
  {
    hide RolesFor;
  }

  // ----- buckets of the current events, one per role that occurs -----

  datatype Bucket = Bucket(key: Role, events: seq<Event>)

  const ROLE_ORDER: seq<Role> := [Miner, Maintainer, Owner, Operator, Contributor, Unknown]

  function RoleRank(r: Role): nat {
    match r
    case Miner => 0 case Maintainer => 1 case Owner => 2 case Operator => 3 case Contributor => 4 case Unknown => 5
  }

  predicate RoleBucketBefore(a: Bucket, b: Bucket) {
    |a.events| > |b.events| || (|a.events| == |b.events| && RoleRank(a.key) < RoleRank(b.key))
  }

  /** Every role that occurs, with its events in order. */
  ghost predicate AreRoleBuckets(buckets: seq<Bucket>, events: seq<Event>) {
    && Ascending(RoleBucketBefore, buckets)
    && (forall i :: 0 <= i < |buckets| ==> buckets[i].events == WithRole(events, events, buckets[i].key) != [])
    && (forall r: Role :: WithRole(events, events, r) != [] ==> Bucket(r, WithRole(events, events, r)) in buckets)
  }

  lemma RoleOrderIsStrict()
    ensures Strict(RoleBucketBefore)
  {
  }

  lemma RoleBucketsUnique(a: seq<Bucket>, b: seq<Bucket>, events: seq<Event>)
    requires AreRoleBuckets(a, events) && AreRoleBuckets(b, events)
    ensures a == b
  {
    RoleOrderIsStrict();
    hide WithRole, RoleBucketBefore;
    AscendingUnique(RoleBucketBefore, a, b);
  }

  /** Larger buckets come first, and equal ones in the stated order of roles. */
  lemma BucketOrderMeans(buckets: seq<Bucket>, events: seq<Event>, i: nat, j: nat)
    requires AreRoleBuckets(buckets, events) && i < j < |buckets|
    ensures |buckets[i].events| > |buckets[j].events|
            || (&& |buckets[i].events| == |buckets[j].events|
                && exists m, n :: 0 <= m < n < 6 && ROLE_ORDER[m] == buckets[i].key && ROLE_ORDER[n] == buckets[j].key)
    ensures ROLE_ORDER == [Miner, Maintainer, Owner, Operator, Contributor, Unknown]
  {
    hide WithRole;
    assert RoleBucketBefore(buckets[i], buckets[j]);
    RoleAtItsRank(buckets[i].key);
    RoleAtItsRank(buckets[j].key);
  }

  lemma RoleAtItsRank(r: Role)
    ensures RoleRank(r) < 6 && ROLE_ORDER[RoleRank(r)] == r
  {
  }

  /** The two nested loops that fill the Map, then its entries sorted. */
  method RoleBuckets(events: seq<Event>) returns (buckets: seq<Bucket>)
    ensures AreRoleBuckets(buckets, events)
  {
    hide RolesFor, KnownRoles, WithRole;
    var actorRoles := RolesByActor(events);
    var byRole: map<Role, seq<Event>> := map[];
    var order: seq<Role> := [];
    forall r ensures WithRole(events[..0], events, r) == [] { NoneWithRole(events, r); }
    for i := 0 to |events|
      invariant Distinct(order) && forall r :: r in order <==> r in byRole
      invariant forall r :: (r in byRole <==> WithRole(events[..i], events, r) != [])
                            && (r in byRole ==> byRole[r] == WithRole(events[..i], events, r))
    {
      var e := events[i];
      var roles := RolesOf(e, actorRoles);
      RolesOfIsRolesFor(e, actorRoles, events);
      for k := 0 to |ROLE_ORDER|
        invariant Distinct(order) && forall r :: r in order <==> r in byRole
        invariant forall r :: var n := if RoleRank(r) < k then i + 1 else i;
                    (r in byRole <==> WithRole(events[..n], events, r) != [])
                    && (r in byRole ==> byRole[r] == WithRole(events[..n], events, r))
      {
        var role := ROLE_ORDER[k];
        RoleAtRank(k);
        WithRoleStep(events, i, role);
        if role !in roles { continue; }
        if role !in byRole { order := order + [role]; }
        byRole := byRole[role := (if role in byRole then byRole[role] else []) + [e]];
      }
    }
    assert events[..|events|] == events;
    var entries := seq(|order|, i requires 0 <= i < |order| => Bucket(order[i], byRole[order[i]]));
    buckets := SortBy(RoleBucketBefore, entries);
    EntriesAreBuckets(events, order, byRole, entries);
  }

  lemma NoneWithRole(events: seq<Event>, role: Role)
    ensures WithRole(events[..0], events, role) == []
  {
  }

  lemma RoleAtRank(k: nat)
    requires k < |ROLE_ORDER|
    ensures RoleRank(ROLE_ORDER[k]) == k && forall r :: RoleRank(r) == k ==> r == ROLE_ORDER[k]
  {
  }

  lemma WithRoleStep(events: seq<Event>, i: nat, role: Role)
    requires i < |events|
    ensures WithRole(events[..i + 1], events, role)
            == WithRole(events[..i], events, role) + if role in RolesFor(events[i], events) then [events[i]] else []
  {
    hide RolesFor;
    assert events[..i + 1][..i] == events[..i];
  }

  function RolesOf(e: Event, actorRoles: map<string, set<Role>>): set<Role> {
    if BaseRoles(e) == {Unknown} && e.actorHash.Some? && e.actorHash.value in actorRoles
    then actorRoles[e.actorHash.value]
    else BaseRoles(e)
  }

  lemma RolesOfIsRolesFor(e: Event, actorRoles: map<string, set<Role>>, events: seq<Event>)
    requires AreActorRoles(actorRoles, events)
    ensures RolesOf(e, actorRoles) == RolesFor(e, events)
  {
    hide BaseRoles, KnownRoles;
  }

  lemma EntriesAreBuckets(events: seq<Event>, order: seq<Role>, byRole: map<Role, seq<Event>>, entries: seq<Bucket>)
    requires Distinct(order) && forall r :: r in order <==> r in byRole
    requires forall r :: (r in byRole <==> WithRole(events, events, r) != [])
                         && (r in byRole ==> byRole[r] == WithRole(events, events, r))
    requires |entries| == |order| && forall i :: 0 <= i < |order| ==> entries[i] == Bucket(order[i], byRole[order[i]])
    ensures AreRoleBuckets(SortBy(RoleBucketBefore, entries), events)
  {
    hide WithRole, SortBy;
    RoleOrderIsStrict();
    var buckets := SortBy(RoleBucketBefore, entries);
    assert TotalOn(RoleBucketBefore, entries) && Distinct(entries);
    hide RoleBucketBefore, Strict, TotalOn, Distinct;
    SortAscending(RoleBucketBefore, entries);
    SortPermutes(RoleBucketBefore, entries);
    MembersOf(buckets, entries);
    forall i | 0 <= i < |buckets| ensures buckets[i].events == WithRole(events, events, buckets[i].key) != [] {
      assert buckets[i] in entries;
    }
    forall r: Role | WithRole(events, events, r) != [] ensures Bucket(r, WithRole(events, events, r)) in buckets {
      var k :| 0 <= k < |order| && order[k] == r;
      assert entries[k] in entries;
    }
  }

  // ----- the two windows -----

  datatype Retained<Key> = Retained(key: Key, activeActors: nat, retainedActors: nat)

  datatype Window = Window(
    days: nat, capped: bool, activeActors: nat, retainedActors: nat,
    byRole: seq<Retained<Role>>, bySurface: map<Surface, Retained<Surface>>)

  function RetainedIn(current: seq<Event>, previous: seq<Event>): nat {
    |ActorsOf(current) * ActorsOf(previous)|
  }

  function RoleRetention(buckets: seq<Bucket>, previous: seq<Event>): seq<Retained<Role>> {
    seq(|buckets|, i requires 0 <= i < |buckets| =>
      Retained(buckets[i].key, |ActorsOf(buckets[i].events)|,
               RetainedIn(buckets[i].events, WithRole(previous, previous, buckets[i].key))))
  }

  function SurfaceRetention(current: seq<Event>, previous: seq<Event>): map<Surface, Retained<Surface>> {
    map s: Surface | OnSurface(current, s) != [] ::
      Retained(s, |ActorsOf(OnSurface(current, s))|, RetainedIn(OnSurface(current, s), OnSurface(previous, s)))
  }

  /** The rollup of one window of `days` days before `day`. */
  function WindowOf(day: int, days: nat, current: seq<Event>, buckets: seq<Bucket>, previous: seq<Event>, capped: bool)
    : Window
  {
    var recent := Since(previous, (day - days) * MS_PER_DAY);
    Window(days, capped, |ActorsOf(current)|, RetainedIn(current, recent),
           RoleRetention(buckets, recent), SurfaceRetention(current, recent))
  }

  /** Those whom an event satisfying the condition names as its actor. */
  ghost predicate Acts(events: seq<Event>, holds: Event -> bool, actor: string) {
    actor != "" && exists e :: e in events && holds(e) && e.actorHash == Some(actor)
  }

  lemma ActorsAct(events: seq<Event>, keep: Event -> bool, actor: string)
    ensures actor in ActorsOf(Filter(keep, events)) <==> Acts(events, keep, actor)
  {
    if e :| e in events && keep(e) && e.actorHash == Some(actor) && actor != "" {
      assert e in Filter(keep, events) && NonEmpty(e.actorHash).Some?;
    }
  }

  /** A set with exactly these members has as many. */
  ghost predicate Numbers(n: nat, holds: string -> bool) {
    exists s: set<string> :: |s| == n && forall x :: x in s <==> holds(x)
  }

  ghost function Acting(events: seq<Event>, holds: Event -> bool): string -> bool {
    a => Acts(events, holds, a)
  }

  ghost function Both(p: string -> bool, q: string -> bool): string -> bool {
    a => p(a) && q(a)
  }

  lemma ActorsNumber(here: seq<Event>, there: seq<Event>, p: string -> bool, q: string -> bool)
    requires forall a :: a in ActorsOf(here) <==> p(a)
    requires forall a :: a in ActorsOf(there) <==> q(a)
    ensures Numbers(|ActorsOf(here)|, p) && Numbers(RetainedIn(here, there), Both(p, q))
  {
    hide ActorsOf;
    assert forall a :: a in ActorsOf(here) * ActorsOf(there) <==> Both(p, q)(a);
  }

  function Anyone(): Event -> bool {
    (e: Event) => true
  }

  /** The events from so many days before the day on. */
  function SinceDays(day: int, days: nat): Event -> bool {
    (e: Event) => e.occurredAt >= 86_400_000 * (day - days)
  }

  lemma Everyone(events: seq<Event>)
    ensures Filter(Anyone(), events) == events
  {
    FilterAll(Anyone(), events);
  }

  /** A window of n days counts the current actors, and those of them seen in the n days before. */
  lemma WindowMeans(day: int, days: nat, current: seq<Event>, buckets: seq<Bucket>, previous: seq<Event>, capped: bool)
    ensures var w := WindowOf(day, days, current, buckets, previous, capped);
      && w.days == days && w.capped == capped
      && Numbers(w.activeActors, Acting(current, Anyone()))
      && Numbers(w.retainedActors, Both(Acting(current, Anyone()), Acting(previous, SinceDays(day, days))))
  {
    var recent := Since(previous, (day - days) * MS_PER_DAY);
    RecentSeen(day, days, previous);
    Everyone(current);
    forall a
      ensures a in ActorsOf(current) <==> Acts(current, Anyone(), a)
      ensures a in ActorsOf(recent) <==> Acts(previous, SinceDays(day, days), a)
    {
      ActorsAct(current, Anyone(), a);
      ActorsAct(previous, SinceDays(day, days), a);
    }
    ActorsNumber(current, recent, Acting(current, Anyone()), Acting(previous, SinceDays(day, days)));
  }

  lemma {:induction false} SameFilter(p: Event -> bool, q: Event -> bool, events: seq<Event>)
    requires forall e :: p(e) == q(e)
    ensures Filter(p, events) == Filter(q, events)
  {
    if events != [] {
      SameFilter(p, q, events[..|events| - 1]);
    }
  }

  lemma RecentSeen(day: int, days: nat, previous: seq<Event>)
    ensures Since(previous, (day - days) * MS_PER_DAY) == Filter(SinceDays(day, days), previous)
  {
    SameFilter(NotBefore((day - days) * MS_PER_DAY), SinceDays(day, days), previous);
  }

  /** The events on a surface from so many days before the day on. */
  function ThereSince(s: Surface, day: int, days: nat): Event -> bool {
    (e: Event) => e.surface == s && e.occurredAt >= 86_400_000 * (day - days)
  }

  /** The entry of a surface counts its own events only, and there is one when it has a current event. */
  lemma SurfaceEntryMeans(day: int, days: nat, current: seq<Event>, buckets: seq<Bucket>, previous: seq<Event>,
                          capped: bool, s: Surface)
    ensures var w := WindowOf(day, days, current, buckets, previous, capped);
      && (s in w.bySurface <==> exists e :: e in current && e.surface == s)
      && (s in w.bySurface ==>
            && w.bySurface[s].key == s && Numbers(w.bySurface[s].activeActors, Acting(current, IsOn(s)))
            && Numbers(w.bySurface[s].retainedActors,
                       Both(Acting(current, IsOn(s)), Acting(previous, ThereSince(s, day, days)))))
  {
    var recent, here := Since(previous, (day - days) * MS_PER_DAY), OnSurface(current, s);
    var there := OnSurface(recent, s);
    hide Numbers, ActorsOf, Acts, RetainedIn;
    if here != [] { assert here[0] in here; }
    forall a
      ensures a in ActorsOf(here) <==> Acts(current, IsOn(s), a)
      ensures a in ActorsOf(there) <==> Acts(previous, ThereSince(s, day, days), a)
    {
      ActorsAct(current, IsOn(s), a);
      ActorsAct(recent, IsOn(s), a);
      ThereAct(day, days, previous, s, a);
    }
    ActorsNumber(here, there, Acting(current, IsOn(s)), Acting(previous, ThereSince(s, day, days)));
  }

  lemma ThereAct(day: int, days: nat, previous: seq<Event>, s: Surface, a: string)
    ensures Acts(Since(previous, (day - days) * MS_PER_DAY), IsOn(s), a)
            <==> Acts(previous, ThereSince(s, day, days), a)
  {
  }

  /** The entry of a role counts the events of its bucket, and earlier ones that have the role. */
  lemma RoleEntryMeans(day: int, days: nat, current: seq<Event>, buckets: seq<Bucket>, previous: seq<Event>,
                       capped: bool, i: nat)
    requires i < |buckets|
    ensures var entry := WindowOf(day, days, current, buckets, previous, capped).byRole[i];
      var recent := Filter(SinceDays(day, days), previous);
      && entry.key == buckets[i].key && Numbers(entry.activeActors, Acting(buckets[i].events, Anyone()))
      && Numbers(entry.retainedActors,
                 Both(Acting(buckets[i].events, Anyone()), Acting(recent, HasRole(recent, buckets[i].key))))
  {
    hide RolesFor, Numbers, ActorsOf, Acts, RetainedIn;
    RecentSeen(day, days, previous);
    var recent, role, here := Filter(SinceDays(day, days), previous), buckets[i].key, buckets[i].events;
    var there := WithRole(recent, recent, role);
    Everyone(here);
    forall a
      ensures a in ActorsOf(here) <==> Acts(here, Anyone(), a)
      ensures a in ActorsOf(there) <==> Acts(recent, HasRole(recent, role), a)
    {
      ActorsAct(here, Anyone(), a);
      ActorsAct(recent, HasRole(recent, role), a);
    }
    ActorsNumber(here, there, Acting(here, Anyone()), Acting(recent, HasRole(recent, role)));
  }

  /** `buildProductUsageRetentionRollups`: the windows of 7 and 30 days. */
  method BuildRetentionRollups(day: int, current: seq<Event>, previous: seq<Event>, capped: bool)
    returns (windows: seq<Window>)
    ensures |windows| == 2
    ensures exists buckets ::
              AreRoleBuckets(buckets, current)
              && windows[0] == WindowOf(day, 7, current, buckets, previous, capped)
              && windows[1] == WindowOf(day, 30, current, buckets, previous, capped)
  {
    var buckets := RoleBuckets(current);
    var week := WindowOf(day, 7, current, buckets, previous, capped);
    var month := WindowOf(day, 30, current, buckets, previous, capped);
    windows := [week, month];
  }

  /** Every event of a is one of b. */
  ghost predicate Within(a: seq<Event>, b: seq<Event>) {
    forall e :: e in a ==> e in b
  }

  lemma WindowWithin(previous: seq<Event>, late: int, early: int)
    requires early <= late
    ensures Within(Since(previous, late), Since(previous, early))
  {
    forall e | e in Since(previous, late) ensures e in Since(previous, early) {
      FilterMembers(previous, previous, Unknown, Api, late, e);
      FilterMembers(previous, previous, Unknown, Api, early, e);
    }
  }

  lemma RetainedGrows(current: seq<Event>, a: seq<Event>, b: seq<Event>)
    requires Within(a, b)
    ensures RetainedIn(current, a) <= RetainedIn(current, b) <= |ActorsOf(current)|
  {
    var x, y, c := ActorsOf(current) * ActorsOf(a), ActorsOf(current) * ActorsOf(b), ActorsOf(current);
    forall actor | actor in x ensures actor in y {
      var e :| e in a && NonEmpty(e.actorHash).Some? && e.actorHash.value == actor;
      assert e in b;
    }
    assert y == x + (y - x) && c == y + (c - y);
  }

  lemma KnownRolesGrow(a: seq<Event>, b: seq<Event>, actor: string)
    requires Within(a, b)
    ensures KnownRoles(a, actor) <= KnownRoles(b, actor)
  {
    hide BaseRoles;
    forall r | r in KnownRoles(a, actor) ensures r in KnownRoles(b, actor) {
      var e :| e in a && ByActor(e, actor) && r in BaseRoles(e) && r != Unknown;
      assert e in b;
    }
  }

  /** A longer window can only add known roles, so an event keeps every role it had except "unknown". */
  lemma RolesKept(a: seq<Event>, b: seq<Event>, e: Event, role: Role)
    requires Within(a, b) && role != Unknown && role in RolesFor(e, a)
    ensures role in RolesFor(e, b)
  {
    hide BaseRoles, KnownRoles;
    if e.actorHash.Some? {
      KnownRolesGrow(a, b, e.actorHash.value);
    }
  }

  lemma WithRoleGrows(a: seq<Event>, b: seq<Event>, role: Role)
    requires Within(a, b) && role != Unknown
    ensures Within(WithRole(a, a, role), WithRole(b, b, role))
  {
    hide RolesFor;
    forall e | e in WithRole(a, a, role) ensures e in WithRole(b, b, role) {
      FilterMembers(a, a, role, Api, 0, e);
      FilterMembers(b, b, role, Api, 0, e);
      RolesKept(a, b, e, role);
    }
  }

  lemma OnSurfaceGrows(a: seq<Event>, b: seq<Event>, surface: Surface)
    requires Within(a, b)
    ensures Within(OnSurface(a, surface), OnSurface(b, surface))
  {
    forall e | e in OnSurface(a, surface) ensures e in OnSurface(b, surface) {
      FilterMembers(a, a, Unknown, surface, 0, e);
      FilterMembers(b, b, Unknown, surface, 0, e);
    }
  }

  /**
   A shorter window never retains more actors than a longer one: overall, per surface, and per role other than
   "unknown"; and no window retains more actors than are active.
  */
  lemma LongerWindowRetainsMore(day: int, short: nat, long: nat, current: seq<Event>, buckets: seq<Bucket>,
                                previous: seq<Event>, capped: bool)
    requires short <= long
    ensures var a := WindowOf(day, short, current, buckets, previous, capped);
      var b := WindowOf(day, long, current, buckets, previous, capped);
      && a.retainedActors <= b.retainedActors <= b.activeActors == a.activeActors
      && |a.byRole| == |b.byRole|
      && (forall i :: 0 <= i < |a.byRole| ==>
            && a.byRole[i].key == b.byRole[i].key && a.byRole[i].activeActors == b.byRole[i].activeActors
            && a.byRole[i].retainedActors <= a.byRole[i].activeActors
            && b.byRole[i].retainedActors <= b.byRole[i].activeActors
            && (a.byRole[i].key != Unknown ==> a.byRole[i].retainedActors <= b.byRole[i].retainedActors))
      && a.bySurface.Keys == b.bySurface.Keys
      && (forall s :: s in a.bySurface ==>
            a.bySurface[s].retainedActors <= b.bySurface[s].retainedActors <= b.bySurface[s].activeActors)
  {
    hide WithRole, OnSurface, Since, RetainedIn, ActorsOf;
    var a, b := Since(previous, (day - short) * MS_PER_DAY), Since(previous, (day - long) * MS_PER_DAY);
    WindowWithin(previous, (day - short) * MS_PER_DAY, (day - long) * MS_PER_DAY);
    RetainedGrows(current, a, b);
    forall i | 0 <= i < |buckets|
      ensures RetainedIn(buckets[i].events, WithRole(a, a, buckets[i].key)) <= |ActorsOf(buckets[i].events)|
      ensures RetainedIn(buckets[i].events, WithRole(b, b, buckets[i].key)) <= |ActorsOf(buckets[i].events)|
      ensures buckets[i].key != Unknown ==> RetainedIn(buckets[i].events, WithRole(a, a, buckets[i].key))
                                            <= RetainedIn(buckets[i].events, WithRole(b, b, buckets[i].key))
    {
      var k, events := buckets[i].key, buckets[i].events;
      RetainedGrows(events, WithRole(a, a, k), WithRole(a, a, k));
      RetainedGrows(events, WithRole(b, b, k), WithRole(b, b, k));
      if k != Unknown {
        WithRoleGrows(a, b, k);
        RetainedGrows(events, WithRole(a, a, k), WithRole(b, b, k));
      }
    }
    forall s: Surface
      ensures RetainedIn(OnSurface(current, s), OnSurface(a, s)) <= RetainedIn(OnSurface(current, s), OnSurface(b, s))
              <= |ActorsOf(OnSurface(current, s))|
    {
      OnSurfaceGrows(a, b, s);
      RetainedGrows(OnSurface(current, s), OnSurface(a, s), OnSurface(b, s));
    }
  }

  // ----- why "unknown" is excepted -----

  /** The actor has an event that names "unknown" beside another role, and so stays unknown whatever else it does. */
  ghost predicate Mixed(events: seq<Event>, actor: string) {
    exists e :: e in events && ByActor(e, actor) && Unknown in BaseRoles(e) && BaseRoles(e) != {Unknown}
  }

  ghost predicate Unlabelled(events: seq<Event>, actor: string) {
    exists e :: e in events && ByActor(e, actor) && BaseRoles(e) == {Unknown}
  }

  /** An actor counts as unknown when it has no known role in the window, or a mixed event. */
  lemma UnknownActors(events: seq<Event>, actor: string)
    requires actor != ""
    ensures actor in ActorsOf(WithRole(events, events, Unknown)) <==>
            Mixed(events, actor) || (Unlabelled(events, actor) && KnownRoles(events, actor) == {})
  {
    hide BaseRoles, WithRole;
    forall e ensures e in WithRole(events, events, Unknown) <==> e in events && Unknown in RolesFor(e, events) {
      FilterMembers(events, events, Unknown, Api, 0, e);
    }
    forall e | e in events && ByActor(e, actor)
      ensures Unknown in RolesFor(e, events) <==>
              || (Unknown in BaseRoles(e) && BaseRoles(e) != {Unknown})
              || (BaseRoles(e) == {Unknown} && KnownRoles(events, actor) == {})
    {
      NeverUnknown(events, actor);
    }
    if actor in ActorsOf(WithRole(events, events, Unknown)) {
      var e :| e in WithRole(events, events, Unknown) && NonEmpty(e.actorHash).Some? && e.actorHash.value == actor;
      assert e in events && ByActor(e, actor);
    }
    if Mixed(events, actor) {
      var e :| e in events && ByActor(e, actor) && Unknown in BaseRoles(e) && BaseRoles(e) != {Unknown};
      assert e in WithRole(events, events, Unknown) && NonEmpty(e.actorHash).Some?;
    } else if Unlabelled(events, actor) && KnownRoles(events, actor) == {} {
      var e :| e in events && ByActor(e, actor) && BaseRoles(e) == {Unknown};
      assert e in WithRole(events, events, Unknown) && NonEmpty(e.actorHash).Some?;
    }
  }

  lemma NeverUnknown(events: seq<Event>, actor: string)
    ensures Unknown !in KnownRoles(events, actor)
  {
  }

  /**
   Exactly when the longer window loses an unknown actor of the shorter one: all it has is unlabelled, and the
   extra days give it a role.
  */
  lemma UnknownLost(a: seq<Event>, b: seq<Event>, actor: string)
    requires Within(a, b) && actor != ""
    ensures actor in ActorsOf(WithRole(a, a, Unknown)) && actor !in ActorsOf(WithRole(b, b, Unknown)) <==>
            Unlabelled(a, actor) && KnownRoles(a, actor) == {} && KnownRoles(b, actor) != {} && !Mixed(b, actor)
  {
    hide BaseRoles, WithRole, KnownRoles;
    UnknownActors(a, actor);
    UnknownActors(b, actor);
  }

  function Plain(id: string, day: int, role: Role): Event {
    Event(id, day * MS_PER_DAY, Api, role, "page_viewed", Success, Some("a"), None, None, None, None, None, [])
  }

  /** An actor unlabelled yesterday and a miner twenty days ago is retained as unknown over 7 days, not over 30. */
  lemma UnknownCanShrink()
    ensures var current, previous := [Plain("3", 100, Unknown)], [Plain("2", 99, Unknown), Plain("1", 80, Miner)];
      var week, month := Since(previous, 93 * MS_PER_DAY), Since(previous, 70 * MS_PER_DAY);
      && RetainedIn(current, WithRole(week, week, Unknown)) == 1
      && RetainedIn(current, WithRole(month, month, Unknown)) == 0
  {
    var today, yesterday, before := Plain("3", 100, Unknown), Plain("2", 99, Unknown), Plain("1", 80, Miner);
    var current, previous := [today], [yesterday, before];
    var week, month := Since(previous, 93 * MS_PER_DAY), Since(previous, 70 * MS_PER_DAY);
    forall e ensures (e in week <==> e == yesterday) && (e in month <==> e == yesterday || e == before) {
      FilterMembers(previous, previous, Unknown, Api, 93 * MS_PER_DAY, e);
      FilterMembers(previous, previous, Unknown, Api, 70 * MS_PER_DAY, e);
    }
    PlainRoles("3", 100, Unknown);
    PlainRoles("2", 99, Unknown);
    PlainRoles("1", 80, Miner);
    hide BaseRoles, WithRole, Since, RetainedIn;
    assert Unlabelled(week, "a") && KnownRoles(week, "a") == {} && !Mixed(month, "a");
    assert Miner in KnownRoles(month, "a");
    UnknownLost(week, month, "a");
    OnlyActor(current, WithRole(week, week, Unknown), "a");
    OnlyActor(current, WithRole(month, month, Unknown), "a");
  }

  lemma PlainRoles(id: string, day: int, role: Role)
    ensures BaseRoles(Plain(id, day, role)) == {role}
  {
    var e := Plain(id, day, role);
    if role == Unknown {
      assert NamedRoles(e) == {};
      assert e.eventName !in MINER_EVENTS;
    } else {
      assert NamedRoles(e) == {role};
    }
  }

  lemma OnlyActor(current: seq<Event>, previous: seq<Event>, actor: string)
    requires actor != "" && |current| == 1 && current[0].actorHash == Some(actor)
    ensures RetainedIn(current, previous) == if actor in ActorsOf(previous) then 1 else 0
  {
    var e := current[0];
    assert current == [e];
    assert ActorsOf(current) == {actor};
    assert ActorsOf(current) * ActorsOf(previous) == if actor in ActorsOf(previous) then {actor} else {};
  }
}
