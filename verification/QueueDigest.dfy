/** The maintainer's queue: pull requests to review, and those that wait for their author (src/github/commands.ts). */
module QueueDigest {
  import opened Instants
  import opened Options
  import opened Sorting
  import opened Sequences

  datatype PullRequest = PullRequest(
    number: int, state: string, authorLogin: Option<string>, authorAssociation: Option<string>, isDraft: bool,
    linkedIssues: seq<int>, updatedAt: Option<string>, createdAt: Option<string>)

  datatype ItemType = IssueItem | PullRequestItem | RecentMergeItem

  datatype Item = Item(kind: ItemType, number: int)

  datatype Signal =
    | ConfirmedMiner | MissingLinkedIssue | DuplicateOrOverlap | StaleUpdate | Draft | ChecksNeedAttention
    | MaintainerAuthored

  datatype Summary = Summary(
    number: int, authorLogin: Option<string>, linkedIssues: seq<int>, ageDays: nat, confirmedMiner: bool,
    signals: seq<Signal>)

  /** `Date.parse` where it yields a number, `Date.now()`, and `normalizeLogin`. */
  datatype Host = Host(parseDate: string -> Option<int>, clock: int, normalize: string -> string)

  /** What the digest reads besides the pull requests. */
  datatype Context = Context(
    host: Host, minerLogins: seq<string>, clusters: seq<seq<Item>>, conclusions: map<int, seq<Option<string>>>)

  // ----- one pull request -----

  function DaysSince(host: Host, value: Option<string>): nat {
    if value.None? || value.value == "" || host.parseDate(value.value).None? then 0
    else
      var days := (host.clock - host.parseDate(value.value).value) / MS_PER_DAY;
      if days < 0 then 0 else days
  }

  predicate IsConfirmedMiner(context: Context, login: Option<string>) {
    && login.Some? && login.value != ""
    && context.host.normalize(login.value) in set l | l in context.minerLogins :: context.host.normalize(l)
  }

  predicate IsMaintainer(association: Option<string>) {
    association in {Some("OWNER"), Some("MEMBER"), Some("COLLABORATOR")}
  }

  predicate IsFailure(conclusion: Option<string>) {
    conclusion in {Some("failure"), Some("timed_out"), Some("cancelled")}
  }

  function Conclusions(context: Context, pr: PullRequest): seq<Option<string>> {
    if pr.number in context.conclusions then context.conclusions[pr.number] else []
  }

  function Failing(conclusions: seq<Option<string>>): nat {
    if conclusions == [] then 0
    else
      var n := |conclusions| - 1;
      Failing(conclusions[..n]) + if IsFailure(conclusions[n]) then 1 else 0
  }

  function IsKind(kind: ItemType): Item -> bool {
    (item: Item) => item.kind == kind
  }

  function OfKind(items: seq<Item>, kind: ItemType): seq<Item> {
    Filter(IsKind(kind), items)
  }

  predicate IsDuplicateWork(cluster: seq<Item>) {
    var pulls, merges := |OfKind(cluster, PullRequestItem)|, |OfKind(cluster, RecentMergeItem)|;
    pulls > 1 || (pulls > 0 && merges > 0)
  }

  function DuplicateNumbers(clusters: seq<seq<Item>>): set<int> {
    set cluster, item | cluster in clusters && IsDuplicateWork(cluster) && item in OfKind(cluster, PullRequestItem)
      :: item.number
  }

  function When(condition: bool, signal: Signal): seq<Signal> {
    if condition then [signal] else []
  }

  function Signals(confirmed: bool, unlinked: bool, duplicate: bool, stale: bool, draft: bool, failing: bool,
                   maintainer: bool): seq<Signal>
  {
    When(confirmed, ConfirmedMiner)
    + When(unlinked, MissingLinkedIssue)
    + When(duplicate, DuplicateOrOverlap)
    + When(stale, StaleUpdate)
    + When(draft, Draft)
    + When(failing, ChecksNeedAttention)
    + When(maintainer, MaintainerAuthored)
  }

  function Summarize(context: Context, pr: PullRequest): Summary {
    var ageDays := DaysSince(context.host, if pr.updatedAt.Some? then pr.updatedAt else pr.createdAt);
    var confirmedMiner := IsConfirmedMiner(context, pr.authorLogin);
    var signals := Signals(
      confirmedMiner, pr.linkedIssues == [], pr.number in DuplicateNumbers(context.clusters), ageDays >= 14, pr.isDraft,
      Failing(Conclusions(context, pr)) > 0, IsMaintainer(pr.authorAssociation));
    Summary(pr.number, pr.authorLogin, pr.linkedIssues, ageDays, confirmedMiner, signals)
  }

  const AUTHOR_SIGNALS: set<Signal> := {MissingLinkedIssue, DuplicateOrOverlap, StaleUpdate, Draft, ChecksNeedAttention}

  predicate NeedsAuthor(item: Summary) {
    exists s :: s in item.signals && s in AUTHOR_SIGNALS
  }

  /** The filter of the review list spells out two of the signals again. */
  predicate ReviewNow(item: Summary) {
    !NeedsAuthor(item) && |item.linkedIssues| > 0 && Draft !in item.signals
  }

  predicate IsConfirmed(item: Summary) {
    item.confirmedMiner
  }

  // ----- the two orders -----

  function Weight(item: Summary, signal: Signal, points: nat): nat {
    if signal in item.signals then points else 0
  }

  function SignalRank(item: Summary): nat {
    Weight(item, DuplicateOrOverlap, 10) + Weight(item, ChecksNeedAttention, 4) + Weight(item, MissingLinkedIssue, 3)
    + Weight(item, Draft, 2) + Weight(item, StaleUpdate, 1)
  }

  function ToNumber(b: bool): int {
    if b then 1 else 0
  }

  /** `a || b` on numbers. */
  function Or(a: int, b: int): int {
    if a != 0 then a else b
  }

  function ReviewNowSort(left: Summary, right: Summary): int {
    Or(ToNumber(right.confirmedMiner) - ToNumber(left.confirmedMiner),
       Or(|right.linkedIssues| - |left.linkedIssues|, Or(right.ageDays - left.ageDays, left.number - right.number)))
  }

  function NeedsAuthorSort(left: Summary, right: Summary): int {
    Or(SignalRank(right) - SignalRank(left), Or(right.ageDays - left.ageDays, left.number - right.number))
  }

  predicate ReviewFirst(left: Summary, right: Summary) {
    ReviewNowSort(left, right) < 0
  }

  predicate AuthorFirst(left: Summary, right: Summary) {
    NeedsAuthorSort(left, right) < 0
  }

  // ----- the digest -----

  predicate IsOpen(pr: PullRequest) {
    pr.state == "open"
  }

  function Summaries(context: Context, prs: seq<PullRequest>): (r: seq<Summary>)
    ensures |r| == |prs|
  {
    seq(|prs|, i requires 0 <= i < |prs| => Summarize(context, prs[i]))
  }

  datatype Digest = Digest(reviewNow: seq<Summary>, needsAuthor: seq<Summary>, confirmedMiner: seq<Summary>)

  function BuildDigest(context: Context, prs: seq<PullRequest>): Digest {
    var summaries := Summaries(context, Filter(IsOpen, prs));
    Digest(
      SortBy(ReviewFirst, Filter(ReviewNow, summaries)),
      SortBy(AuthorFirst, Filter(NeedsAuthor, summaries)),
      SortBy(ReviewFirst, Filter(IsConfirmed, summaries)))
  }

  // ----- what the signals mean -----

  /** A pull request is a duplicate when a cluster holds it beside another open or a recently merged one. */
  lemma DuplicateMeans(clusters: seq<seq<Item>>, number: int)
    ensures number in DuplicateNumbers(clusters) <==>
            exists c, i, j :: 0 <= c < |clusters| && 0 <= i < |clusters[c]| && 0 <= j < |clusters[c]| && i != j
                           && clusters[c][i] == Item(PullRequestItem, number)
                           && clusters[c][j].kind in {PullRequestItem, RecentMergeItem}
  {
    if number in DuplicateNumbers(clusters) {
      var cluster, item :| cluster in clusters && IsDuplicateWork(cluster)
                           && item in OfKind(cluster, PullRequestItem) && item.number == number;
      var c :| 0 <= c < |clusters| && clusters[c] == cluster;
      var i :| 0 <= i < |cluster| && cluster[i] == item;
      var j := Companion(cluster, i);
      assert clusters[c][i] == Item(PullRequestItem, number);
      assert clusters[c][j].kind in {PullRequestItem, RecentMergeItem};
    }
    if c, i, j :| 0 <= c < |clusters| && 0 <= i < |clusters[c]| && 0 <= j < |clusters[c]| && i != j
                  && clusters[c][i] == Item(PullRequestItem, number)
                  && clusters[c][j].kind in {PullRequestItem, RecentMergeItem}
    {
      CompanionCounts(clusters[c], i, j);
      assert clusters[c] in clusters && clusters[c][i] in OfKind(clusters[c], PullRequestItem);
    }
  }

  lemma Companion(cluster: seq<Item>, i: nat) returns (j: nat)
    requires IsDuplicateWork(cluster) && i < |cluster| && cluster[i].kind == PullRequestItem
    ensures j < |cluster| && j != i && cluster[j].kind in {PullRequestItem, RecentMergeItem}
  {
    if OfKind(cluster, RecentMergeItem) != [] {
      var item := OfKind(cluster, RecentMergeItem)[0];
      assert item in OfKind(cluster, RecentMergeItem);
      j :| 0 <= j < |cluster| && cluster[j] == item;
    } else if j' :| 0 <= j' < |cluster| && j' != i && cluster[j'].kind == PullRequestItem {
      j := j';
    } else {
      OnlyOne(cluster, i);
      assert false;
    }
  }

  lemma {:induction false} OnlyOne(cluster: seq<Item>, i: nat)
    requires i < |cluster| && forall j :: 0 <= j < |cluster| && j != i ==> cluster[j].kind != PullRequestItem
    ensures |OfKind(cluster, PullRequestItem)| <= 1
  {
    var n := |cluster| - 1;
    if i < n {
      OnlyOne(cluster[..n], i);
    } else {
      NoneOf(cluster[..n]);
    }
  }

  lemma {:induction false} NoneOf(cluster: seq<Item>)
    requires forall j :: 0 <= j < |cluster| ==> cluster[j].kind != PullRequestItem
    ensures OfKind(cluster, PullRequestItem) == []
  {
    if cluster != [] {
      NoneOf(cluster[..|cluster| - 1]);
    }
  }

  lemma CompanionCounts(cluster: seq<Item>, i: nat, j: nat)
    requires i < |cluster| && j < |cluster| && i != j
    requires cluster[i].kind == PullRequestItem && cluster[j].kind in {PullRequestItem, RecentMergeItem}
    ensures IsDuplicateWork(cluster)
  {
    assert cluster[i] in OfKind(cluster, PullRequestItem);
    if cluster[j].kind == RecentMergeItem {
      assert cluster[j] in OfKind(cluster, RecentMergeItem);
    } else {
      TwoOf(cluster, if i < j then i else j, if i < j then j else i);
    }
  }

  lemma {:induction false} TwoOf(cluster: seq<Item>, i: nat, j: nat)
    requires i < j < |cluster| && cluster[i].kind == PullRequestItem && cluster[j].kind == PullRequestItem
    ensures |OfKind(cluster, PullRequestItem)| > 1
  {
    var n := |cluster| - 1;
    if j < n {
      TwoOf(cluster[..n], i, j);
    } else {
      assert cluster[..n][i] in OfKind(cluster[..n], PullRequestItem);
    }
  }

  lemma SignalsIn(confirmed: bool, unlinked: bool, duplicate: bool, stale: bool, draft: bool, failing: bool,
                  maintainer: bool)
    ensures var r := Signals(confirmed, unlinked, duplicate, stale, draft, failing, maintainer);
      && (MissingLinkedIssue in r <==> unlinked) && (DuplicateOrOverlap in r <==> duplicate)
      && (StaleUpdate in r <==> stale) && (Draft in r <==> draft) && (ChecksNeedAttention in r <==> failing)
      && (ConfirmedMiner in r <==> confirmed) && (MaintainerAuthored in r <==> maintainer)
  {
    var a := When(confirmed, ConfirmedMiner) + When(unlinked, MissingLinkedIssue);
    var b := a + When(duplicate, DuplicateOrOverlap);
    var c := b + When(stale, StaleUpdate);
    var d := c + When(draft, Draft);
    var e := d + When(failing, ChecksNeedAttention);
    hide When;
    Appended([], confirmed, ConfirmedMiner);
    assert [] + When(confirmed, ConfirmedMiner) == When(confirmed, ConfirmedMiner);
    Appended(When(confirmed, ConfirmedMiner), unlinked, MissingLinkedIssue);
    Appended(a, duplicate, DuplicateOrOverlap);
    Appended(b, stale, StaleUpdate);
    Appended(c, draft, Draft);
    Appended(d, failing, ChecksNeedAttention);
    Appended(e, maintainer, MaintainerAuthored);
  }

  lemma Appended(signals: seq<Signal>, condition: bool, signal: Signal)
    ensures forall s :: s in signals + When(condition, signal) <==> s in signals || (condition && s == signal)
  {
  }

  predicate HasFailure(context: Context, pr: PullRequest) {
    exists k :: 0 <= k < |Conclusions(context, pr)| && IsFailure(Conclusions(context, pr)[k])
  }

  /** Each signal says of the request what its name says. */
  lemma SignalsMean(context: Context, pr: PullRequest)
    ensures var item := Summarize(context, pr);
      && (MissingLinkedIssue in item.signals <==> pr.linkedIssues == [])
      && (DuplicateOrOverlap in item.signals <==> pr.number in DuplicateNumbers(context.clusters))
      && (StaleUpdate in item.signals <==> item.ageDays >= 14)
      && (Draft in item.signals <==> pr.isDraft)
      && (ChecksNeedAttention in item.signals <==> HasFailure(context, pr))
      && (ConfirmedMiner in item.signals <==> IsConfirmedMiner(context, pr.authorLogin))
      && (MaintainerAuthored in item.signals <==> IsMaintainer(pr.authorAssociation))
  {
    hide Signals, DuplicateNumbers, DaysSince;
    var item := Summarize(context, pr);
    FailingPositive(Conclusions(context, pr));
    SignalsIn(item.confirmedMiner, pr.linkedIssues == [], pr.number in DuplicateNumbers(context.clusters),
              item.ageDays >= 14, pr.isDraft, Failing(Conclusions(context, pr)) > 0,
              IsMaintainer(pr.authorAssociation));
  }

  lemma {:induction false} FailingPositive(conclusions: seq<Option<string>>)
    ensures Failing(conclusions) > 0 <==> exists k :: 0 <= k < |conclusions| && IsFailure(conclusions[k])
  {
    if conclusions != [] {
      var n := |conclusions| - 1;
      var past := conclusions[..n];
      FailingPositive(past);
      assert forall k :: 0 <= k < n ==> past[k] == conclusions[k];
    }
  }

  /** The two lists cannot overlap, and the extra conditions of the review list never leave a request out. */
  lemma ReviewIsTheRest(context: Context, pr: PullRequest)
    ensures ReviewNow(Summarize(context, pr)) <==> !NeedsAuthor(Summarize(context, pr))
  {
    hide DuplicateNumbers, HasFailure, DaysSince, Signals;
    SignalsMean(context, pr);
    var item := Summarize(context, pr);
    assert MissingLinkedIssue in AUTHOR_SIGNALS && Draft in AUTHOR_SIGNALS;
  }

  /** The age is that of the last update, or else of the creation, in whole days; 0 when unknown or in the future. */
  lemma AgeMeans(context: Context, pr: PullRequest)
    ensures var at := if pr.updatedAt.Some? then pr.updatedAt else pr.createdAt;
      var age, host := Summarize(context, pr).ageDays, context.host;
      if at.None? || |at.value| == 0 || host.parseDate(at.value).None? then age == 0
      else
        var elapsed := host.clock - host.parseDate(at.value).value;
        if elapsed < 0 then age == 0 else 86_400_000 * age <= elapsed < 86_400_000 * age + 86_400_000
  {
    hide DuplicateNumbers, Signals, Failing, IsConfirmedMiner, IsMaintainer;
  }

  /** A confirmed miner's login, normalised, is one of the normalised logins of the cache. */
  lemma ConfirmedMeans(context: Context, pr: PullRequest)
    ensures var item := Summarize(context, pr);
      && item.number == pr.number && item.authorLogin == pr.authorLogin && item.linkedIssues == pr.linkedIssues
      && (item.confirmedMiner <==>
            && pr.authorLogin.Some? && |pr.authorLogin.value| > 0
            && exists l :: l in context.minerLogins
                           && context.host.normalize(l) == context.host.normalize(pr.authorLogin.value))
  {
    hide DuplicateNumbers, Signals, Failing, DaysSince, IsMaintainer;
  }

  /** A check failed, timed out or was cancelled. */
  lemma FailureMeans(context: Context, pr: PullRequest)
    ensures HasFailure(context, pr) <==>
            pr.number in context.conclusions
            && exists x :: x in context.conclusions[pr.number]
                           && x in {Some("failure"), Some("timed_out"), Some("cancelled")}
    ensures IsMaintainer(pr.authorAssociation) <==>
            pr.authorAssociation in {Some("OWNER"), Some("MEMBER"), Some("COLLABORATOR")}
  {
    var all := Conclusions(context, pr);
    if HasFailure(context, pr) {
      var k :| 0 <= k < |all| && IsFailure(all[k]);
      var x := all[k];
      assert x in all;
    }
    if x :| x in all && x in {Some("failure"), Some("timed_out"), Some("cancelled")} {
      var k :| 0 <= k < |all| && all[k] == x;
      assert IsFailure(all[k]);
    }
  }

  /** The requests that wait for their author. */
  lemma NeedsAuthorMeans(context: Context, pr: PullRequest)
    ensures NeedsAuthor(Summarize(context, pr)) <==>
            || pr.linkedIssues == [] || pr.number in DuplicateNumbers(context.clusters) || pr.isDraft
            || Summarize(context, pr).ageDays >= 14 || HasFailure(context, pr)
  {
    hide DuplicateNumbers, HasFailure, DaysSince, Signals;
    SignalsMean(context, pr);
    SomeAuthorSignal(Summarize(context, pr));
  }

  lemma SomeAuthorSignal(item: Summary)
    ensures NeedsAuthor(item) <==>
            || MissingLinkedIssue in item.signals || DuplicateOrOverlap in item.signals || StaleUpdate in item.signals
            || Draft in item.signals || ChecksNeedAttention in item.signals
  {
    assert forall s :: s in AUTHOR_SIGNALS ==> s != ConfirmedMiner && s != MaintainerAuthored;
  }

  // ----- what the orders mean -----

  /** A confirmed miner comes first, then the request with more linked issues, then the older one, then by number. */
  lemma ReviewOrderMeans(a: Summary, b: Summary)
    ensures a.confirmedMiner && !b.confirmedMiner ==> ReviewFirst(a, b)
    ensures a.confirmedMiner == b.confirmedMiner && |a.linkedIssues| > |b.linkedIssues| ==> ReviewFirst(a, b)
    ensures a.confirmedMiner == b.confirmedMiner && |a.linkedIssues| == |b.linkedIssues| && a.ageDays > b.ageDays
            ==> ReviewFirst(a, b)
    ensures a.confirmedMiner == b.confirmedMiner && |a.linkedIssues| == |b.linkedIssues| && a.ageDays == b.ageDays
            ==> (ReviewFirst(a, b) <==> a.number < b.number)
  {
  }

  /** How pressing the signals of a request are. */
  lemma RankMeans(item: Summary)
    ensures SignalRank(item)
            == (if DuplicateOrOverlap in item.signals then 10 else 0)
               + (if ChecksNeedAttention in item.signals then 4 else 0)
               + (if MissingLinkedIssue in item.signals then 3 else 0)
               + (if Draft in item.signals then 2 else 0) + (if StaleUpdate in item.signals then 1 else 0)
  {
  }

  /** The higher rank comes first, then the older request, then the lower number. */
  lemma AuthorOrderMeans(a: Summary, b: Summary)
    ensures SignalRank(a) > SignalRank(b) ==> AuthorFirst(a, b)
    ensures SignalRank(a) == SignalRank(b) && a.ageDays > b.ageDays ==> AuthorFirst(a, b)
    ensures SignalRank(a) == SignalRank(b) && a.ageDays == b.ageDays ==> (AuthorFirst(a, b) <==> a.number < b.number)
  {
    hide SignalRank;
  }

  /** The rank is positive exactly for the requests on the author's list. */
  lemma RankPositive(item: Summary)
    ensures SignalRank(item) > 0 <==> NeedsAuthor(item)
  {
    if SignalRank(item) > 0 {
      assert exists s :: s in AUTHOR_SIGNALS && s in item.signals;
    }
  }

  /** A possible duplicate never comes after a request without that signal, unless that one has all four others. */
  lemma DuplicatesFirst(a: Summary, b: Summary)
    requires DuplicateOrOverlap in a.signals && DuplicateOrOverlap !in b.signals
    ensures AuthorFirst(b, a) ==>
              && (forall s :: s in AUTHOR_SIGNALS ==> (s in b.signals <==> s !in a.signals))
              && (b.ageDays > a.ageDays || (b.ageDays == a.ageDays && b.number < a.number))
  {
  }

  // ----- the digest -----

  predicate DistinctNumbers(prs: seq<PullRequest>) {
    forall i, j :: 0 <= i < j < |prs| ==> prs[i].number != prs[j].number
  }

  predicate DistinctItems(items: seq<Summary>) {
    forall i, j :: 0 <= i < j < |items| ==> items[i].number != items[j].number
  }

  lemma OrdersAreStrict()
    ensures Strict(ReviewFirst) && Strict(AuthorFirst)
  {
    hide SignalRank;
  }

  lemma OrdersAreTotal(items: seq<Summary>)
    requires DistinctItems(items)
    ensures Distinct(items) && TotalOn(ReviewFirst, items) && TotalOn(AuthorFirst, items)
  {
    hide SignalRank;
    forall i, j | 0 <= i < |items| && 0 <= j < |items| && items[i] != items[j]
      ensures ReviewFirst(items[i], items[j]) || ReviewFirst(items[j], items[i])
      ensures AuthorFirst(items[i], items[j]) || AuthorFirst(items[j], items[i])
    {
      assert items[i].number != items[j].number;
    }
  }

  lemma {:induction false} FilterNumbers(keep: Summary -> bool, items: seq<Summary>)
    requires DistinctItems(items)
    ensures DistinctItems(Filter(keep, items))
  {
    if items != [] {
      var n := |items| - 1;
      var past := items[..n];
      FilterNumbers(keep, past);
      forall i | 0 <= i < |Filter(keep, past)| ensures Filter(keep, past)[i].number != items[n].number {
        assert Filter(keep, past)[i] in past;
      }
    }
  }

  lemma {:induction false} FilterRequests(keep: PullRequest -> bool, prs: seq<PullRequest>)
    requires DistinctNumbers(prs)
    ensures DistinctNumbers(Filter(keep, prs))
  {
    if prs != [] {
      var n := |prs| - 1;
      var past := prs[..n];
      FilterRequests(keep, past);
      forall i | 0 <= i < |Filter(keep, past)| ensures Filter(keep, past)[i].number != prs[n].number {
        assert Filter(keep, past)[i] in past;
      }
    }
  }

  /** Keeping and sorting distinctly numbered items: the one arrangement of the kept items in the order. */
  lemma KeptAndSorted(less: (Summary, Summary) -> bool, keep: Summary -> bool, items: seq<Summary>)
    requires less == ReviewFirst || less == AuthorFirst
    requires DistinctItems(items)
    ensures var list := SortBy(less, Filter(keep, items));
      && Ascending(less, list)
      && forall x :: x in list <==> x in items && keep(x)
  {
    OrdersAreStrict();
    FilterNumbers(keep, items);
    OrdersAreTotal(Filter(keep, items));
    SortAscending(less, Filter(keep, items));
    SortPermutes(less, Filter(keep, items));
    MembersOf(SortBy(less, Filter(keep, items)), Filter(keep, items));
  }

  /** The summaries of the open requests. */
  ghost predicate IsOpenSummary(context: Context, prs: seq<PullRequest>, x: Summary) {
    exists pr :: pr in prs && IsOpen(pr) && x == Summarize(context, pr)
  }

  lemma SummariesAre(context: Context, prs: seq<PullRequest>)
    ensures forall x :: x in Summaries(context, Filter(IsOpen, prs)) <==> IsOpenSummary(context, prs, x)
    ensures DistinctNumbers(prs) ==> DistinctItems(Summaries(context, Filter(IsOpen, prs)))
  {
    hide Summarize;
    var kept := Filter(IsOpen, prs);
    var summaries := Summaries(context, kept);
    forall x ensures x in summaries <==> IsOpenSummary(context, prs, x) {
      if x in summaries {
        var i :| 0 <= i < |summaries| && summaries[i] == x;
        assert kept[i] in kept;
      }
      if pr :| pr in prs && IsOpen(pr) && x == Summarize(context, pr) {
        assert pr in kept;
        var i :| 0 <= i < |kept| && kept[i] == pr;
        assert summaries[i] == x;
      }
    }
    if DistinctNumbers(prs) {
      FilterRequests(IsOpen, prs);
      assert forall i :: 0 <= i < |kept| ==> summaries[i].number == kept[i].number by { NumbersKept(context, kept); }
    }
  }

  lemma NumbersKept(context: Context, prs: seq<PullRequest>)
    ensures forall i :: 0 <= i < |prs| ==> Summaries(context, prs)[i].number == prs[i].number
  {
  }

  lemma {:induction false} FilterSplits(keep: Summary -> bool, drop: Summary -> bool, items: seq<Summary>)
    requires forall x :: x in items ==> keep(x) == !drop(x)
    ensures multiset(Filter(keep, items)) + multiset(Filter(drop, items)) == multiset(items)
  {
    if items != [] {
      var past, x := items[..|items| - 1], items[|items| - 1];
      assert items == past + [x] && x in items;
      FilterSplits(keep, drop, past);
      FilterLast(keep, past, x);
      FilterLast(drop, past, x);
      hide Filter;
      assert multiset(items) == multiset(past) + multiset{x};
    }
  }

  /** The two lists together hold every open request once, and no other. */
  lemma SplitIsPartition(context: Context, prs: seq<PullRequest>)
    ensures var d := BuildDigest(context, prs);
      && multiset(d.reviewNow) + multiset(d.needsAuthor) == multiset(Summaries(context, Filter(IsOpen, prs)))
      && (forall x :: x in d.needsAuthor ==> NeedsAuthor(x)) && forall x :: x in d.reviewNow ==> !NeedsAuthor(x)
  {
    hide NeedsAuthor, ReviewNow, Summarize, SortBy, Filter;
    var summaries := Summaries(context, Filter(IsOpen, prs));
    SummariesAre(context, prs);
    forall x | x in summaries ensures ReviewNow(x) == !NeedsAuthor(x) {
      var pr :| pr in prs && IsOpen(pr) && x == Summarize(context, pr);
      ReviewIsTheRest(context, pr);
    }
    FilterSplits(ReviewNow, NeedsAuthor, summaries);
    SortPermutes(ReviewFirst, Filter(ReviewNow, summaries));
    SortPermutes(AuthorFirst, Filter(NeedsAuthor, summaries));
    MembersOf(SortBy(ReviewFirst, Filter(ReviewNow, summaries)), Filter(ReviewNow, summaries));
    MembersOf(SortBy(AuthorFirst, Filter(NeedsAuthor, summaries)), Filter(NeedsAuthor, summaries));
  }

  /** A list in this order of the open requests that satisfy keep. */
  ghost predicate IsList(list: seq<Summary>, less: (Summary, Summary) -> bool, keep: Summary -> bool,
                         context: Context, prs: seq<PullRequest>)
  {
    Ascending(less, list) && forall x :: x in list <==> IsOpenSummary(context, prs, x) && keep(x)
  }

  lemma OnlyList(list: seq<Summary>, less: (Summary, Summary) -> bool, keep: Summary -> bool, context: Context,
                 prs: seq<PullRequest>)
    requires DistinctNumbers(prs) && (less == ReviewFirst || less == AuthorFirst)
    ensures IsList(list, less, keep, context, prs)
            <==> list == SortBy(less, Filter(keep, Summaries(context, Filter(IsOpen, prs))))
  {
    hide SortBy, Filter, IsOpenSummary, Summaries, DistinctItems, DistinctNumbers, Ascending, Strict;
    var summaries := Summaries(context, Filter(IsOpen, prs));
    SummariesAre(context, prs);
    KeptAndSorted(less, keep, summaries);
    OrdersAreStrict();
    if IsList(list, less, keep, context, prs) {
      AscendingUnique(less, list, SortBy(less, Filter(keep, summaries)));
    }
  }

  predicate IsReady(item: Summary) {
    !NeedsAuthor(item)
  }

  /** Each list of the digest is the only sorted arrangement of the requests it is for. */
  lemma DigestLists(context: Context, prs: seq<PullRequest>, list: seq<Summary>)
    requires DistinctNumbers(prs)
    ensures IsList(list, ReviewFirst, IsReady, context, prs) <==> list == BuildDigest(context, prs).reviewNow
    ensures IsList(list, AuthorFirst, NeedsAuthor, context, prs) <==> list == BuildDigest(context, prs).needsAuthor
    ensures IsList(list, ReviewFirst, IsConfirmed, context, prs) <==> list == BuildDigest(context, prs).confirmedMiner
  {
    hide SortBy, Filter, Ascending, Summaries, Summarize, NeedsAuthor, ReviewNow, IsConfirmed, DistinctNumbers;
    OnlyList(list, ReviewFirst, ReviewNow, context, prs);
    OnlyList(list, AuthorFirst, NeedsAuthor, context, prs);
    OnlyList(list, ReviewFirst, IsConfirmed, context, prs);
    forall x | IsOpenSummary(context, prs, x) ensures ReviewNow(x) == IsReady(x) {
      var pr :| pr in prs && IsOpen(pr) && x == Summarize(context, pr);
      ReviewIsTheRest(context, pr);
    }
  }

  /** The digest does not depend on the order in which the requests come. */
  lemma OrderIndependent(context: Context, a: seq<PullRequest>, b: seq<PullRequest>)
    requires DistinctNumbers(a) && DistinctNumbers(b) && forall pr :: pr in a <==> pr in b
    ensures BuildDigest(context, a) == BuildDigest(context, b)
  {
    hide BuildDigest, DistinctNumbers, Summarize, Ascending;
    var d := BuildDigest(context, a);
    assert forall x :: IsOpenSummary(context, a, x) <==> IsOpenSummary(context, b, x);
    DigestLists(context, a, d.reviewNow);
    DigestLists(context, b, d.reviewNow);
    DigestLists(context, a, d.needsAuthor);
    DigestLists(context, b, d.needsAuthor);
    DigestLists(context, a, d.confirmedMiner);
    DigestLists(context, b, d.confirmedMiner);
  }

  /** Which open requests each list holds. */
  lemma DigestMeans(context: Context, prs: seq<PullRequest>, x: Summary)
    requires DistinctNumbers(prs)
    ensures x in BuildDigest(context, prs).needsAuthor <==>
            exists pr :: pr in prs && pr.state == "open" && x == Summarize(context, pr) && NeedsAuthor(x)
    ensures x in BuildDigest(context, prs).reviewNow <==>
            exists pr :: pr in prs && pr.state == "open" && x == Summarize(context, pr) && !NeedsAuthor(x)
    ensures x in BuildDigest(context, prs).confirmedMiner <==>
            exists pr :: pr in prs && pr.state == "open" && x == Summarize(context, pr) && x.confirmedMiner
  {
    var d := BuildDigest(context, prs);
    hide BuildDigest, NeedsAuthor, Summarize, DistinctNumbers, Ascending;
    DigestLists(context, prs, d.needsAuthor);
    DigestLists(context, prs, d.reviewNow);
    DigestLists(context, prs, d.confirmedMiner);
  }
}
