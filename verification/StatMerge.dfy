/** Merging a contributor's per-repository figures from several sources (src/db/repositories.ts). */
module StatMerge {
  import opened Options
  import opened Arith
  import opened Sequences
  import Lexicographic
  import Sorting

  datatype Counter = PullRequests | Merged | Open | Issues | Stale | Unlinked

  datatype Stat = Stat(
    login: string, repoFullName: string,
    pullRequests: int, mergedPullRequests: int, openPullRequests: int,
    issues: int, stalePullRequests: int, unlinkedPullRequests: int,
    dominantLabels: seq<string>, lastActivityAt: Option<string>)
  {
    function Of(c: Counter): int {
      match c
      case PullRequests => pullRequests case Merged => mergedPullRequests case Open => openPullRequests
      case Issues => issues case Stale => stalePullRequests case Unlinked => unlinkedPullRequests
    }
  }

  /** `toLowerCase`, the "negative" case of `localeCompare`, and the eight most frequent labels. */
  datatype Host = Host(lower: string -> string, before: (string, string) -> bool, topLabels: seq<string> -> seq<string>)
  {
    function Key(s: Stat): string {
      lower(s.repoFullName)
    }

    predicate RowBefore(a: Stat, b: Stat) {
      before(a.repoFullName, b.repoFullName)
    }
  }

  // ----- the latest instant -----

  /** `filter(Boolean)`. */
  function Present(values: seq<Option<string>>): (r: seq<string>)
    ensures forall x :: x in r <==> x != "" && Some(x) in values
  {
    if values == [] then []
    else
      var n := |values| - 1;
      Present(values[..n]) + if values[n].Some? && values[n].value != "" then [values[n].value] else []
  }

  function LatestIso(values: seq<Option<string>>): Option<string> {
    var sorted := Sorting.SortBy(Lexicographic.Precedes, Present(values));
    if sorted == [] then None else Some(sorted[|sorted| - 1])
  }

  /** v is the greatest non-empty value, or None when there is none. */
  ghost predicate IsLatest(v: Option<string>, values: set<Option<string>>) {
    if v.None? then forall x :: Some(x) in values ==> x == ""
    else
      v.value != "" && v in values && forall x :: x != "" && Some(x) in values ==> !Lexicographic.Precedes(v.value, x)
  }

  lemma LatestIsoIsLatest(values: seq<Option<string>>)
    ensures IsLatest(LatestIso(values), set v | v in values)
  {
    var present := Present(values);
    var sorted := Sorting.SortBy(Lexicographic.Precedes, present);
    Lexicographic.PrecedesIsStrict();
    Sorting.SortSettles(Lexicographic.Precedes, present);
    Sorting.SortPermutes(Lexicographic.Precedes, present);
    Sorting.MembersOf(sorted, present);
    if sorted == [] {
      assert forall x :: Some(x) in values && x != "" ==> x in present;
    } else {
      var last := sorted[|sorted| - 1];
      assert last in sorted;
      forall x | x != "" && Some(x) in values ensures !Lexicographic.Precedes(last, x) {
        assert x in sorted;
        var i :| 0 <= i < |sorted| && sorted[i] == x;
      }
    }
  }

  lemma LatestUnique(v: Option<string>, w: Option<string>, values: set<Option<string>>)
    requires IsLatest(v, values) && IsLatest(w, values)
    ensures v == w
  {
    Lexicographic.PrecedesIsStrict();
  }

  /** Leaving out what an earlier merge already absorbed changes nothing. */
  lemma LatestOfLatest(v: Option<string>, absorbed: set<Option<string>>, x: Option<string>)
    requires IsLatest(v, absorbed)
    ensures forall w :: IsLatest(w, {v, x}) <==> IsLatest(w, absorbed + {x})
  {
    Lexicographic.PrecedesIsStrict();
  }

  // ----- the merge -----

  /** A `Map`: its keys in insertion order, and its entries. */
  datatype Rows = Rows(keys: seq<string>, at: map<string, Stat>)

  function Combine(host: Host, existing: Stat, stat: Stat): Stat {
    Stat(stat.login, stat.repoFullName,
         Max(existing.pullRequests, stat.pullRequests), Max(existing.mergedPullRequests, stat.mergedPullRequests),
         Max(existing.openPullRequests, stat.openPullRequests), Max(existing.issues, stat.issues),
         Max(existing.stalePullRequests, stat.stalePullRequests),
         Max(existing.unlinkedPullRequests, stat.unlinkedPullRequests),
         host.topLabels(existing.dominantLabels + stat.dominantLabels),
         LatestIso([existing.lastActivityAt, stat.lastActivityAt]))
  }

  function Add(host: Host, rows: Rows, stat: Stat): Rows {
    var key := host.Key(stat);
    if key in rows.at then rows.(at := rows.at[key := Combine(host, rows.at[key], stat)])
    else Rows(rows.keys + [key], rows.at[key := stat])
  }

  function Gather(host: Host, stats: seq<Stat>): Rows {
    if stats == [] then Rows([], map[])
    else Add(host, Gather(host, stats[..|stats| - 1]), stats[|stats| - 1])
  }

  predicate Consistent(rows: Rows) {
    forall i :: 0 <= i < |rows.keys| ==> rows.keys[i] in rows.at
  }

  function Values(rows: Rows): seq<Stat>
    requires Consistent(rows)
  {
    seq(|rows.keys|, i requires 0 <= i < |rows.keys| => rows.at[rows.keys[i]])
  }

  lemma {:induction false} GatherConsistent(host: Host, stats: seq<Stat>)
    ensures Consistent(Gather(host, stats))
    ensures forall k :: k in Gather(host, stats).keys <==> k in Gather(host, stats).at
    ensures Sorting.Distinct(Gather(host, stats).keys)
  {
    if stats != [] {
      GatherConsistent(host, stats[..|stats| - 1]);
    }
  }

  function Merge(host: Host, stats: seq<Stat>): seq<Stat> {
    GatherConsistent(host, stats);
    Sorting.SortBy(host.RowBefore, Values(Gather(host, stats)))
  }

  method MergeContributorRepoStats(host: Host, stats: seq<Stat>) returns (merged: seq<Stat>)
    ensures merged == Merge(host, stats)
  {
    var keys: seq<string>, byRepo: map<string, Stat> := [], map[];
    for i := 0 to |stats|
      invariant Rows(keys, byRepo) == Gather(host, stats[..i])
    {
      var stat := stats[i];
      assert stats[..i + 1][..i] == stats[..i];
      var key := host.lower(stat.repoFullName);
      if key !in byRepo {
        keys, byRepo := keys + [key], byRepo[key := stat];
      } else {
        byRepo := byRepo[key := Combine(host, byRepo[key], stat)];
      }
    }
    assert stats[..|stats|] == stats;
    GatherConsistent(host, stats);
    var values := seq(|keys|, i requires 0 <= i < |keys| => byRepo[keys[i]]);
    assert values == Values(Gather(host, stats));
    merged := Sorting.SortBy(host.RowBefore, values);
  }

  // ----- what a merged record says -----

  function HasKey(host: Host, key: string): Stat -> bool {
    (s: Stat) => host.Key(s) == key
  }

  /** The records of one repository, in input order. */
  function Group(host: Host, stats: seq<Stat>, key: string): seq<Stat> {
    Filter(HasKey(host, key), stats)
  }

  ghost function Activity(group: seq<Stat>): set<Option<string>> {
    set s | s in group :: s.lastActivityAt
  }

  ghost predicate IsMax(v: int, c: Counter, group: seq<Stat>) {
    (forall s :: s in group ==> s.Of(c) <= v) && exists s :: s in group && s.Of(c) == v
  }

  /** Maxima of the counts and the latest activity; a record that is alone in its group stays as it is. */
  ghost predicate IsMergeOf(r: Stat, group: seq<Stat>) {
    && group != []
    && r.login == group[|group| - 1].login && r.repoFullName == group[|group| - 1].repoFullName
    && (forall c: Counter :: IsMax(r.Of(c), c, group))
    && if |group| == 1 then r == group[0] else IsLatest(r.lastActivityAt, Activity(group))
  }

  lemma MaxStep(v: int, c: Counter, group: seq<Stat>, stat: Stat)
    requires IsMax(v, c, group)
    ensures IsMax(Max(v, stat.Of(c)), c, group + [stat])
  {
    if v < stat.Of(c) {
      assert stat in group + [stat];
    } else {
      var s :| s in group && s.Of(c) == v;
      assert s in group + [stat];
    }
  }

  lemma CombineOf(host: Host, existing: Stat, stat: Stat, c: Counter)
    ensures Combine(host, existing, stat).Of(c) == Max(existing.Of(c), stat.Of(c))
  {
  }

  lemma ActivityStep(host: Host, existing: Stat, group: seq<Stat>, stat: Stat)
    requires IsMergeOf(existing, group)
    ensures IsLatest(Combine(host, existing, stat).lastActivityAt, Activity(group + [stat]))
  {
    hide IsLatest;
    var pair := [existing.lastActivityAt, stat.lastActivityAt];
    LatestIsoIsLatest(pair);
    assert (set v | v in pair) == {existing.lastActivityAt, stat.lastActivityAt};
    assert Activity(group + [stat]) == Activity(group) + {stat.lastActivityAt};
    if |group| == 1 {
      assert Activity(group) == {existing.lastActivityAt};
      assert Activity(group + [stat]) == (set v | v in pair);
    } else {
      LatestOfLatest(existing.lastActivityAt, Activity(group), stat.lastActivityAt);
    }
  }

  lemma CombineMerges(host: Host, existing: Stat, group: seq<Stat>, stat: Stat)
    requires IsMergeOf(existing, group)
    ensures IsMergeOf(Combine(host, existing, stat), group + [stat])
  {
    hide IsMax, IsLatest;
    ActivityStep(host, existing, group, stat);
    forall c: Counter ensures IsMax(Combine(host, existing, stat).Of(c), c, group + [stat]) {
      CombineOf(host, existing, stat, c);
      MaxStep(existing.Of(c), c, group, stat);
    }
  }

  ghost predicate Gathered(host: Host, rows: Rows, stats: seq<Stat>) {
    && (forall k :: k in rows.at <==> Group(host, stats, k) != [])
    && forall k :: k in rows.at ==> host.Key(rows.at[k]) == k && IsMergeOf(rows.at[k], Group(host, stats, k))
  }

  lemma {:induction false} GatherMerges(host: Host, stats: seq<Stat>)
    ensures Gathered(host, Gather(host, stats), stats)
  {
    if stats != [] {
      GatherMerges(host, stats[..|stats| - 1]);
      AddMerges(host, Gather(host, stats[..|stats| - 1]), stats);
    }
  }

  lemma GroupLast(host: Host, stats: seq<Stat>, key: string)
    requires stats != []
    ensures Group(host, stats, key) ==
            var n := |stats| - 1;
            var past := Group(host, stats[..n], key);
            if host.Key(stats[n]) == key then past + [stats[n]] else past
  {
  }

  lemma AddMerges(host: Host, rows: Rows, stats: seq<Stat>)
    requires stats != [] && Gathered(host, rows, stats[..|stats| - 1])
    ensures Gathered(host, Add(host, rows, stats[|stats| - 1]), stats)
  {
    hide IsMergeOf, Group;
    var n := |stats| - 1;
    var past, stat := stats[..n], stats[n];
    var key, more := host.Key(stat), Add(host, rows, stat);
    GroupLast(host, stats, key);
    if key in rows.at {
      CombineMerges(host, rows.at[key], Group(host, past, key), stat);
    } else {
      AloneMerges(stat);
      assert [] + [stat] == [stat];
    }
    assert host.Key(more.at[key]) == key && IsMergeOf(more.at[key], Group(host, stats, key));
    forall k | k != key
      ensures k in more.at <==> k in rows.at
      ensures k in more.at ==> more.at[k] == rows.at[k]
      ensures Group(host, stats, k) == Group(host, past, k)
    {
      GroupLast(host, stats, k);
    }
  }

  lemma AloneMerges(stat: Stat)
    ensures IsMergeOf(stat, [stat])
  {
    assert stat in [stat];
  }

  ghost predicate OnePerKey(host: Host, stats: seq<Stat>) {
    forall i, j :: 0 <= i < j < |stats| ==> host.Key(stats[i]) != host.Key(stats[j])
  }

  ghost function Keys(host: Host, stats: seq<Stat>): set<string> {
    set s | s in stats :: host.Key(s)
  }

  lemma GroupMembers(host: Host, stats: seq<Stat>, key: string)
    ensures forall s :: s in Group(host, stats, key) <==> s in stats && host.Key(s) == key
  {
  }

  lemma KeyOccurs(host: Host, stats: seq<Stat>, key: string)
    ensures Group(host, stats, key) != [] <==> key in Keys(host, stats)
  {
    GroupMembers(host, stats, key);
    if Group(host, stats, key) != [] {
      assert Group(host, stats, key)[0] in stats;
    }
  }

  lemma ValuesByRepo(host: Host, stats: seq<Stat>)
    ensures Consistent(Gather(host, stats))
    ensures var values := Values(Gather(host, stats));
      && OnePerKey(host, values) && Keys(host, values) == Keys(host, stats)
      && forall r :: r in values ==> IsMergeOf(r, Group(host, stats, host.Key(r)))
  {
    hide IsMergeOf, Group;
    GatherConsistent(host, stats);
    GatherMerges(host, stats);
    var rows := Gather(host, stats);
    var values := Values(rows);
    assert forall i :: 0 <= i < |values| ==> host.Key(values[i]) == rows.keys[i];
    forall k ensures k in Keys(host, values) <==> k in Keys(host, stats) {
      KeyOccurs(host, stats, k);
      if k in rows.at {
        var i :| 0 <= i < |rows.keys| && rows.keys[i] == k;
        assert values[i] in values;
      }
    }
  }

  lemma SamePermutation(host: Host, a: seq<Stat>, b: seq<Stat>)
    requires OnePerKey(host, a) && multiset(a) == multiset(b)
    ensures OnePerKey(host, b) && Keys(host, a) == Keys(host, b) && forall s :: s in a <==> s in b
  {
    Sorting.MembersOf(a, b);
    Sorting.PermutationDistinct(a, b);
    forall i, j | 0 <= i < j < |b| ensures host.Key(b[i]) != host.Key(b[j]) {
      assert b[i] in a && b[j] in a;
    }
  }

  /** One record for every case-folded name that occurs, each the merge of its group. */
  lemma MergeByRepo(host: Host, stats: seq<Stat>)
    ensures OnePerKey(host, Merge(host, stats)) && Keys(host, Merge(host, stats)) == Keys(host, stats)
    ensures forall r :: r in Merge(host, stats) ==> IsMergeOf(r, Group(host, stats, host.Key(r)))
  {
    hide IsMergeOf, Group, OnePerKey, Keys;
    ValuesByRepo(host, stats);
    Sorting.SortPermutes(host.RowBefore, Values(Gather(host, stats)));
    SamePermutation(host, Values(Gather(host, stats)), Merge(host, stats));
  }

  /** The figures the merge is for. */
  ghost predicate SameFigures(a: Stat, b: Stat) {
    (forall c: Counter :: a.Of(c) == b.Of(c)) && a.lastActivityAt == b.lastActivityAt
  }

  lemma FiguresDetermined(a: Stat, g: seq<Stat>, b: Stat, h: seq<Stat>)
    requires IsMergeOf(a, g) && IsMergeOf(b, h) && |g| == |h| && forall s :: s in g <==> s in h
    ensures SameFigures(a, b)
  {
    hide IsLatest;
    if |g| == 1 {
      assert g[0] in h;
    } else {
      assert Activity(g) == Activity(h);
      LatestUnique(a.lastActivityAt, b.lastActivityAt, Activity(g));
      forall c: Counter ensures a.Of(c) == b.Of(c) {
        assert IsMax(a.Of(c), c, g) && IsMax(b.Of(c), c, h);
      }
    }
  }

  lemma {:induction false} GroupCounts(host: Host, stats: seq<Stat>, key: string, x: Stat)
    ensures multiset(Group(host, stats, key))[x] == if host.Key(x) == key then multiset(stats)[x] else 0
  {
    if stats != [] {
      var n := |stats| - 1;
      GroupCounts(host, stats[..n], key, x);
      assert stats == stats[..n] + [stats[n]];
    }
  }

  lemma GroupPermutes(host: Host, s: seq<Stat>, t: seq<Stat>, key: string)
    requires multiset(s) == multiset(t)
    ensures multiset(Group(host, s, key)) == multiset(Group(host, t, key))
  {
    forall x ensures multiset(Group(host, s, key))[x] == multiset(Group(host, t, key))[x] {
      GroupCounts(host, s, key, x);
      GroupCounts(host, t, key, x);
    }
  }

  /** The order of the input does not matter: the same names come out, with the same figures. */
  lemma OrderIndependent(host: Host, s: seq<Stat>, t: seq<Stat>)
    requires multiset(s) == multiset(t)
    ensures Keys(host, Merge(host, s)) == Keys(host, Merge(host, t))
    ensures forall a, b :: a in Merge(host, s) && b in Merge(host, t) && host.Key(a) == host.Key(b) ==>
              SameFigures(a, b)
  {
    hide Merge, Group, IsMergeOf, SameFigures;
    MergeByRepo(host, s);
    MergeByRepo(host, t);
    Sorting.MembersOf(s, t);
    assert Keys(host, s) == Keys(host, t);
    forall a, b | a in Merge(host, s) && b in Merge(host, t) && host.Key(a) == host.Key(b) ensures SameFigures(a, b) {
      var key := host.Key(a);
      GroupPermutes(host, s, t, key);
      Sorting.MembersOf(Group(host, s, key), Group(host, t, key));
      FiguresDetermined(a, Group(host, s, key), b, Group(host, t, key));
    }
  }

  lemma KeysLast(host: Host, past: seq<Stat>, stat: Stat)
    requires OnePerKey(host, past + [stat])
    ensures OnePerKey(host, past) && host.Key(stat) !in Keys(host, past)
    ensures Keys(host, past + [stat]) == Keys(host, past) + {host.Key(stat)}
  {
    var all := past + [stat];
    assert forall i :: 0 <= i < |past| ==> all[i] == past[i];
    assert all[|past|] == stat;
  }

  lemma ValuesLast(host: Host, rows: Rows, stat: Stat)
    requires Consistent(rows) && host.Key(stat) !in rows.at
    ensures Consistent(Add(host, rows, stat)) && Values(Add(host, rows, stat)) == Values(rows) + [stat]
  {
  }

  lemma {:induction false} GatherDistinct(host: Host, stats: seq<Stat>)
    requires OnePerKey(host, stats)
    ensures Gather(host, stats).at.Keys == Keys(host, stats)
    ensures Consistent(Gather(host, stats)) && Values(Gather(host, stats)) == stats
  {
    if stats != [] {
      hide OnePerKey, Keys, Values, Consistent;
      var n := |stats| - 1;
      var past, stat := stats[..n], stats[n];
      assert stats == past + [stat];
      KeysLast(host, past, stat);
      GatherDistinct(host, past);
      ValuesLast(host, Gather(host, past), stat);
    } else {
      assert Values(Gather(host, stats)) == [];
    }
  }

  /** A merged list is left alone by another merge: all fields, also those that depended on the input order. */
  lemma MergeTwice(host: Host, stats: seq<Stat>)
    requires Sorting.Strict(host.before)
    ensures var merged := Merge(host, stats);
      forall i, j :: 0 <= i < j < |merged| ==> !host.before(merged[j].repoFullName, merged[i].repoFullName)
    ensures Merge(host, Merge(host, stats)) == Merge(host, stats)
  {
    assert Sorting.Strict(host.RowBefore);
    GatherConsistent(host, stats);
    Sorting.SortSettles(host.RowBefore, Values(Gather(host, stats)));
    var merged := Merge(host, stats);
    MergeByRepo(host, stats);
    GatherDistinct(host, merged);
    Sorting.SortOfSettled(host.RowBefore, merged);
  }

  /** Names that differ in case only are one repository: no two records of the result have such names. */
  lemma MergedNamesDiffer(host: Host, stats: seq<Stat>)
    ensures var merged := Merge(host, stats);
      forall i, j :: 0 <= i < j < |merged| ==> host.lower(merged[i].repoFullName) != host.lower(merged[j].repoFullName)
    ensures forall s :: s in stats ==>
              exists r :: r in Merge(host, stats) && host.lower(r.repoFullName) == host.lower(s.repoFullName)
  {
    hide Merge;
    MergeByRepo(host, stats);
    forall s | s in stats
      ensures exists r :: r in Merge(host, stats) && host.lower(r.repoFullName) == host.lower(s.repoFullName)
    {
      assert host.Key(s) in Keys(host, Merge(host, stats));
      var r :| r in Merge(host, stats) && host.Key(r) == host.Key(s);
    }
  }

  /** The labels of a merged record are the most frequent of those so far and those of the next record. */
  lemma LabelsOfNext(host: Host, stats: seq<Stat>, next: Stat)
    ensures var rows, more, key := Gather(host, stats), Gather(host, stats + [next]), host.lower(next.repoFullName);
      && key in more.at
      && more.at[key].dominantLabels
         == if key in rows.at then host.topLabels(rows.at[key].dominantLabels + next.dominantLabels)
            else next.dominantLabels
  {
    assert (stats + [next])[..|stats|] == stats;
  }
}
