/** The single bot panel that is created once and then edited in place (src/github/comments.ts). */
module PanelComment {
  import opened Options
  import Text

  datatype Comment = Comment(id: int, body: Option<string>, userType: string, login: Option<string>)

  const MARKERS: seq<string> :=
    ["<!-- gittensory-pr-panel:v1 -->", "<!-- gittensory-pr-intelligence -->", "<!-- gittensory-agent-command -->"]

  const PAGE_SIZE := 100
  const PAGE_LIMIT := 3

  predicate Includes(text: string, part: string) {
    exists i :: 0 <= i <= |text| && part <= text[i..]
  }

  /** The body carries the marker or one of its aliases. */
  predicate Marked(body: string) {
    exists m :: m in MARKERS && Includes(body, m)
  }

  predicate IsBot(c: Comment, botLogin: string) {
    c.userType == "Bot" && c.login.Some? && Text.AsciiLower(c.login.value) == Text.AsciiLower(botLogin)
  }

  predicate IsPanel(c: Comment, botLogin: string) {
    IsBot(c, botLogin) && c.body.Some? && Marked(c.body.value)
  }

  /** Position of the first panel in the list, or its length: `batch.find`. */
  function FirstPanel(comments: seq<Comment>, botLogin: string): (k: nat)
    ensures k <= |comments| && (k < |comments| ==> IsPanel(comments[k], botLogin))
    ensures forall j :: 0 <= j < k ==> !IsPanel(comments[j], botLogin)
  {
    if comments == [] || IsPanel(comments[0], botLogin) then 0 else 1 + FirstPanel(comments[1..], botLogin)
  }

  /** What the search can see: three pages. */
  function Visible(comments: seq<Comment>): seq<Comment> {
    if |comments| <= PAGE_SIZE * PAGE_LIMIT then comments else comments[..PAGE_SIZE * PAGE_LIMIT]
  }

  /** The panel a linear search of the visible comments finds. */
  function Found(comments: seq<Comment>, botLogin: string): Option<nat> {
    var k := FirstPanel(Visible(comments), botLogin);
    if k < |Visible(comments)| then Some(k) else None
  }

  function Page(comments: seq<Comment>, page: nat): seq<Comment>
    requires page >= 1
  {
    var from := (page - 1) * PAGE_SIZE;
    var to := page * PAGE_SIZE;
    if |comments| <= from then [] else if |comments| <= to then comments[from..] else comments[from..to]
  }

  predicate ValidRepository(repoFullName: string) {
    var parts := Text.Split(repoFullName, '/');
    parts[0] != "" && |parts| > 1 && parts[1] != ""
  }

  datatype Outcome = InvalidRepository | Updated(id: int) | Created(id: int) | NotCreated

  predicate DistinctIds(comments: seq<Comment>) {
    forall i, j :: 0 <= i < j < |comments| ==> comments[i].id != comments[j].id
  }

  /** The thread after an upsert: the found panel gets the body, or a new comment goes to the end. */
  function Upserted(comments: seq<Comment>, botLogin: string, body: string, create: bool, newId: int): seq<Comment> {
    var found := Found(comments, botLogin);
    if found.Some? then comments[found.value := comments[found.value].(body := Some(body))]
    else if create then comments + [Comment(newId, Some(body), "Bot", Some(botLogin))]
    else comments
  }

  class Thread {
    var comments: seq<Comment>

    constructor ()
      ensures comments == []
    {
      comments := [];
    }

    /** The page loop is a linear search of the visible comments. */
    method FindPanel(botLogin: string) returns (existing: Option<Comment>)
      ensures var found := Found(comments, botLogin);
        existing == if found.Some? then Some(comments[found.value]) else None
    {
      existing := None;
      var page := 1;
      while existing.None? && page <= PAGE_LIMIT
        invariant 1 <= page <= PAGE_LIMIT + 1
        invariant existing.None? ==>
                    forall j :: 0 <= j < |comments| && j < (page - 1) * PAGE_SIZE ==> !IsPanel(comments[j], botLogin)
        invariant existing.Some? ==>
                    var found := Found(comments, botLogin); found.Some? && existing == Some(comments[found.value])
        decreases PAGE_LIMIT + 1 - page, existing.None?
      {
        var batch := Page(comments, page);
        var k := FirstPanel(batch, botLogin);
        PageSearch(comments, page, botLogin);
        if k < |batch| {
          existing := Some(batch[k]);
        }
        if |batch| < PAGE_SIZE { break; }
        page := page + 1;
      }
      if existing.None? {
        NothingFound(comments, botLogin);
      }
    }

    /** newId is the id GitHub gives a new comment. */
    method CreateOrUpdate(repoFullName: string, botLogin: string, body: string, create: bool, newId: int)
      returns (outcome: Outcome)
      requires DistinctIds(comments) && forall i :: 0 <= i < |comments| ==> comments[i].id != newId
      modifies this
      ensures DistinctIds(comments)
      ensures !ValidRepository(repoFullName) ==> outcome == InvalidRepository && comments == old(comments)
      ensures ValidRepository(repoFullName) ==>
                && comments == Upserted(old(comments), botLogin, body, create, newId)
                && outcome == (var found := Found(old(comments), botLogin);
                               if found.Some? then Updated(old(comments)[found.value].id)
                               else if create then Created(newId) else NotCreated)
    {
      if !ValidRepository(repoFullName) {
        return InvalidRepository;
      }
      var existing := FindPanel(botLogin);
      if existing.Some? {
        Patch(existing.value.id, body);
        return Updated(existing.value.id);
      }
      if !create {
        return NotCreated;
      }
      comments := comments + [Comment(newId, Some(body), "Bot", Some(botLogin))];
      return Created(newId);
    }

    /** Editing the comment with an id changes its body and nothing else. */
    method Patch(id: int, body: string)
      requires DistinctIds(comments) && exists i :: 0 <= i < |comments| && comments[i].id == id
      modifies this
      ensures DistinctIds(comments)
      ensures forall i :: 0 <= i < |old(comments)| && old(comments)[i].id == id ==>
                comments == old(comments)[i := old(comments)[i].(body := Some(body))]
    {
      var i :| 0 <= i < |comments| && comments[i].id == id;
      comments := comments[i := comments[i].(body := Some(body))];
    }
  }

  /** A page holds a panel exactly when the linear search ends in it or before it. */
  lemma PageSearch(comments: seq<Comment>, page: nat, botLogin: string)
    requires 1 <= page <= PAGE_LIMIT
    requires forall j :: 0 <= j < |comments| && j < (page - 1) * PAGE_SIZE ==> !IsPanel(comments[j], botLogin)
    ensures var batch := Page(comments, page);
      var k := FirstPanel(batch, botLogin);
      && (k < |batch| ==> Found(comments, botLogin) == Some((page - 1) * PAGE_SIZE + k)
                          && batch[k] == comments[(page - 1) * PAGE_SIZE + k])
      && (k == |batch| ==> forall j :: 0 <= j < |comments| && j < page * PAGE_SIZE ==> !IsPanel(comments[j], botLogin))
      && (|batch| < PAGE_SIZE ==> |comments| <= page * PAGE_SIZE)
  {
    hide IsPanel, Page;
    var from := (page - 1) * PAGE_SIZE;
    var batch := Page(comments, page);
    PageHolds(comments, page);
    var k := FirstPanel(batch, botLogin);
    hide FirstPanel;
    if k < |batch| {
      assert batch[k] == comments[from + k];
      forall j | 0 <= j < from + k ensures !IsPanel(comments[j], botLogin) {
        if j >= from { assert comments[j] == batch[j - from]; }
      }
      FirstIs(Visible(comments), botLogin, from + k);
    } else {
      forall j | 0 <= j < |comments| && j < page * PAGE_SIZE ensures !IsPanel(comments[j], botLogin) {
        if j >= from { assert comments[j] == batch[j - from]; }
      }
    }
  }

  lemma PageHolds(comments: seq<Comment>, page: nat)
    requires 1 <= page <= PAGE_LIMIT
    ensures var batch, from := Page(comments, page), (page - 1) * PAGE_SIZE;
      && |batch| <= PAGE_SIZE && (|batch| > 0 ==> from + |batch| <= |comments|)
      && (|batch| < PAGE_SIZE ==> |comments| <= page * PAGE_SIZE)
      && (|batch| == 0 ==> |comments| <= from)
      && (|comments| > from ==>
            from + |batch| == if |comments| < page * PAGE_SIZE then |comments| else page * PAGE_SIZE)
      && forall j :: 0 <= j < |batch| ==> batch[j] == comments[from + j]
  {
  }

  lemma FirstIs(comments: seq<Comment>, botLogin: string, k: nat)
    requires k < |comments| && IsPanel(comments[k], botLogin)
    requires forall j :: 0 <= j < k ==> !IsPanel(comments[j], botLogin)
    ensures FirstPanel(comments, botLogin) == k
  {
  }

  lemma NothingFound(comments: seq<Comment>, botLogin: string)
    requires forall j :: 0 <= j < |comments| && j < PAGE_SIZE * PAGE_LIMIT ==> !IsPanel(comments[j], botLogin)
    ensures Found(comments, botLogin) == None
  {
  }

  // ----- runs -----

  /** Somebody else comments, or the app upserts its panel. */
  datatype Step = Other(comment: Comment) | Upsert(body: string, create: bool, newId: int)

  function Apply(comments: seq<Comment>, step: Step, botLogin: string): seq<Comment> {
    match step
    case Other(c) => comments + [c]
    case Upsert(body, create, newId) => Upserted(comments, botLogin, body, create, newId)
  }

  function ApplyAll(comments: seq<Comment>, steps: seq<Step>, botLogin: string): seq<Comment> {
    if steps == [] then comments
    else Apply(ApplyAll(comments, steps[..|steps| - 1], botLogin), steps[|steps| - 1], botLogin)
  }

  /** Nobody else posts panels, and the app's bodies carry the marker. */
  predicate WellBehaved(steps: seq<Step>, botLogin: string) {
    forall i :: 0 <= i < |steps| ==>
      if steps[i].Other? then !IsPanel(steps[i].comment, botLogin) else Marked(steps[i].body)
  }

  /** The one panel of the thread is at position p. */
  ghost predicate OnlyPanel(comments: seq<Comment>, botLogin: string, p: nat) {
    p < |comments| && forall j :: 0 <= j < |comments| ==> (IsPanel(comments[j], botLogin) <==> j == p)
  }

  ghost predicate NoPanel(comments: seq<Comment>, botLogin: string) {
    forall j :: 0 <= j < |comments| ==> !IsPanel(comments[j], botLogin)
  }

  lemma UpsertCreates(comments: seq<Comment>, botLogin: string, body: string, newId: int)
    requires NoPanel(comments, botLogin) && Marked(body)
    ensures Upserted(comments, botLogin, body, true, newId)
            == comments + [Comment(newId, Some(body), "Bot", Some(botLogin))]
    ensures OnlyPanel(Upserted(comments, botLogin, body, true, newId), botLogin, |comments|)
  {
    hide Marked;
    NothingFound(comments, botLogin);
  }

  lemma VisiblePanelIsFound(comments: seq<Comment>, botLogin: string, p: nat)
    requires OnlyPanel(comments, botLogin, p)
    ensures Found(comments, botLogin) == if p < PAGE_SIZE * PAGE_LIMIT then Some(p) else None
  {
    hide IsPanel;
    if p < PAGE_SIZE * PAGE_LIMIT {
      FirstIs(Visible(comments), botLogin, p);
    } else {
      NothingFound(comments, botLogin);
    }
  }

  /** A panel within reach of the search stays the only one, whatever is posted and upserted. */
  lemma {:induction false} PanelStaysOnly(comments: seq<Comment>, botLogin: string, p: nat, steps: seq<Step>)
    requires OnlyPanel(comments, botLogin, p) && p < PAGE_SIZE * PAGE_LIMIT && WellBehaved(steps, botLogin)
    ensures OnlyPanel(ApplyAll(comments, steps, botLogin), botLogin, p)
  {
    hide Marked;
    if steps != [] {
      var n := |steps| - 1;
      PanelStaysOnly(comments, botLogin, p, steps[..n]);
      VisiblePanelIsFound(ApplyAll(comments, steps[..n], botLogin), botLogin, p);
    }
  }

  function CountPanels(comments: seq<Comment>, botLogin: string): nat {
    if comments == [] then 0
    else CountPanels(comments[..|comments| - 1], botLogin)
         + if IsPanel(comments[|comments| - 1], botLogin) then 1 else 0
  }

  lemma {:induction false} OnlyPanelCounts(comments: seq<Comment>, botLogin: string, p: nat)
    requires OnlyPanel(comments, botLogin, p)
    ensures CountPanels(comments, botLogin) == 1
  {
    hide IsPanel;
    var n := |comments| - 1;
    if p == n {
      NoPanelCounts(comments[..n], botLogin);
    } else {
      OnlyPanelCounts(comments[..n], botLogin, p);
    }
  }

  lemma {:induction false} NoPanelCounts(comments: seq<Comment>, botLogin: string)
    requires NoPanel(comments, botLogin)
    ensures CountPanels(comments, botLogin) == 0
  {
    hide IsPanel;
    if comments != [] {
      NoPanelCounts(comments[..|comments| - 1], botLogin);
    }
  }

  /** Panels that are all out of reach are never found, so every creating upsert adds one more. */
  lemma OutOfReachAdds(comments: seq<Comment>, botLogin: string, body: string, newId: int)
    requires Marked(body)
    requires forall j :: 0 <= j < |comments| && j < PAGE_SIZE * PAGE_LIMIT ==> !IsPanel(comments[j], botLogin)
    ensures CountPanels(Upserted(comments, botLogin, body, true, newId), botLogin)
            == CountPanels(comments, botLogin) + 1
  {
    hide Marked;
    NothingFound(comments, botLogin);
    var c := Comment(newId, Some(body), "Bot", Some(botLogin));
    assert (comments + [c])[..|comments|] == comments;
    assert IsPanel(c, botLogin);
  }

  /**
   Created on a thread without a panel, the panel is the only one after every well-behaved continuation exactly
   when the thread then had fewer than 300 comments.
  */
  lemma OnePanelForever(comments: seq<Comment>, botLogin: string, body: string, newId: int, otherId: int)
    requires NoPanel(comments, botLogin) && Marked(body)
    ensures var first := Upserted(comments, botLogin, body, true, newId);
      (forall steps: seq<Step> :: WellBehaved(steps, botLogin) ==>
         CountPanels(ApplyAll(first, steps, botLogin), botLogin) == 1)
      <==> |comments| < 300
  {
    hide Marked, IsPanel, Upserted, CountPanels;
    var first := Upserted(comments, botLogin, body, true, newId);
    UpsertCreates(comments, botLogin, body, newId);
    if |comments| < PAGE_SIZE * PAGE_LIMIT {
      forall steps: seq<Step> | WellBehaved(steps, botLogin)
        ensures CountPanels(ApplyAll(first, steps, botLogin), botLogin) == 1
      {
        PanelStaysOnly(first, botLogin, |comments|, steps);
        OnlyPanelCounts(ApplyAll(first, steps, botLogin), botLogin, |comments|);
      }
    } else {
      var again := [Upsert(body, true, otherId)];
      OnlyPanelCounts(first, botLogin, |comments|);
      OutOfReachAdds(first, botLogin, body, otherId);
      assert again[..0] == [];
      assert ApplyAll(first, again, botLogin) == Upserted(first, botLogin, body, true, otherId);
      assert WellBehaved(again, botLogin);
    }
  }

  // ----- what a panel is -----

  /** The text stands somewhere in the body. */
  ghost predicate Contains(body: string, text: string) {
    exists before, after :: body == before + text + after
  }

  lemma IncludesMeans(body: string, text: string)
    ensures Includes(body, text) <==> Contains(body, text)
  {
    if Includes(body, text) {
      var i :| 0 <= i <= |body| && text <= body[i..];
      assert body == body[..i] + text + body[i..][|text|..];
    }
    if before, after :| body == before + text + after {
      assert body[|before|..] == text + after;
    }
  }

  /** A comment of a bot account with the app's login, in any case, that carries the marker or an older one. */
  lemma PanelMeans(c: Comment, botLogin: string)
    ensures IsPanel(c, botLogin) <==>
            && c.userType == "Bot" && c.login.Some? && c.body.Some?
            && Text.AsciiLower(c.login.value) == Text.AsciiLower(botLogin)
            && (|| Contains(c.body.value, "<!-- gittensory-pr-panel:v1 -->")
                || Contains(c.body.value, "<!-- gittensory-pr-intelligence -->")
                || Contains(c.body.value, "<!-- gittensory-agent-command -->"))
  {
    if c.body.Some? {
      forall text ensures Includes(c.body.value, text) <==> Contains(c.body.value, text) {
        IncludesMeans(c.body.value, text);
      }
      hide Includes, Contains;
      assert MARKERS[0] in MARKERS && MARKERS[1] in MARKERS && MARKERS[2] in MARKERS;
    }
  }

  /** The search sees exactly the first three hundred comments. */
  lemma FoundMeans(comments: seq<Comment>, botLogin: string, k: nat)
    ensures Found(comments, botLogin) == Some(k) <==>
            && k < |comments| && k < 300 && IsPanel(comments[k], botLogin)
            && forall j :: 0 <= j < k ==> !IsPanel(comments[j], botLogin)
  {
    hide IsPanel;
    var seen := Visible(comments);
    assert forall j :: 0 <= j < |seen| ==> seen[j] == comments[j];
    if k < |seen| && IsPanel(comments[k], botLogin) && forall j :: 0 <= j < k ==> !IsPanel(comments[j], botLogin) {
      FirstIs(seen, botLogin, k);
    }
  }

  /** A repository name has a non-empty owner and a non-empty second part. */
  lemma RepositoryMeans(owner: string, name: string)
    requires '/' !in owner && '/' !in name
    ensures ValidRepository(owner + ['/'] + name) <==> owner != "" && name != ""
    ensures !ValidRepository(owner)
  {
    Text.SplitFirst(owner, '/', name);
    Text.SplitWhole(name, '/');
    Text.SplitWhole(owner, '/');
  }
}
