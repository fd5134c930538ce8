/** The audit rows of skipped pull requests, found by a range of `repo#number` keys (src/db/repositories.ts). */
module TargetKeys {
  import opened Options
  import opened Sequences
  import opened Sorting
  import opened Lexicographic
  import Decimal
  import opened Text

  // ----- the range -----

  predicate HasPrefix(key: string, prefix: string) {
    prefix <= key
  }

  /** The rows the condition of one repository selects; name is its lower-cased name. */
  predicate InRange(key: string, name: string) {
    !Precedes(key, name + "#") && Precedes(key, name + "$")
  }

  lemma {:induction false} HashRange(key: string)
    ensures InRange(key, "") <==> key != "" && key[0] == '#'
  {
    assert "" + "#" == "#" && "" + "$" == "$";
    assert !Precedes("", "") && "#"[1..] == "" && "$"[1..] == "";
    if key != "" {
      assert !Precedes(key[1..], "");
    }
  }

  /** The half-open range holds exactly the strings that start with the name and a `#`. */
  lemma {:induction false} RangeIsPrefix(key: string, name: string)
    ensures InRange(key, name) <==> HasPrefix(key, name + "#")
  {
    if name == "" {
      HashRange(key);
      assert "" + "#" == "#";
    } else {
      var low, high := name + "#", name + "$";
      assert low[1..] == name[1..] + "#" && high[1..] == name[1..] + "$";
      if key != "" {
        RangeIsPrefix(key[1..], name[1..]);
        assert key == [key[0]] + key[1..] && low == [low[0]] + low[1..];
      }
    }
  }

  // ----- keys -----

  datatype Target = Target(repoFullName: string, pullNumber: int)

  const MAX_SAFE_INTEGER := 0x1F_FFFF_FFFF_FFFF

  /**
   `Number` of a text, if it is an integer. `other` stands for the rest of its syntax: spaces, signs, exponents,
   hexadecimal digits and numerals beyond the safe integers.
  */
  function ToInteger(text: string, other: string -> Option<int>): Option<int> {
    if text != "" && Decimal.AllDigits(text) && Decimal.Value(text) <= MAX_SAFE_INTEGER then Some(Decimal.Value(text))
    else other(text)
  }

  /** `lastIndexOf("#")`, with -1 for none. */
  function LastHash(key: string): (k: int)
    ensures -1 <= k < |key| && (k >= 0 ==> key[k] == '#') && '#' !in key[k + 1..]
  {
    if key == "" then -1
    else if key[|key| - 1] == '#' then |key| - 1
    else LastHash(key[..|key| - 1])
  }

  function ParseKey(key: Option<string>, other: string -> Option<int>): Option<Target> {
    if key.None? || key.value == "" then None
    else
      var text, delimiter := key.value, LastHash(key.value);
      if delimiter <= 0 || delimiter == |text| - 1 then None
      else
        var repoFullName, number := text[..delimiter], ToInteger(text[delimiter + 1..], other);
        if '/' !in repoFullName || number.None? || number.value <= 0 then None
        else Some(Target(repoFullName, number.value))
  }

  function FormatKey(repoFullName: string, pullNumber: nat): string {
    repoFullName + "#" + Decimal.Format(pullNumber)
  }

  lemma {:induction false} LastHashAt(a: string, b: string)
    requires '#' !in b
    ensures LastHash(a + "#" + b) == |a|
  {
    if b == "" {
      assert a + "#" + b == a + "#";
    } else {
      LastHashAt(a, b[..|b| - 1]);
      assert (a + "#" + b)[..|a + "#" + b| - 1] == a + "#" + b[..|b| - 1];
    }
  }

  /** Parsing undoes formatting for every name with a slash and every positive number, and refuses the others. */
  lemma ParseFormat(repoFullName: string, pullNumber: nat, other: string -> Option<int>)
    requires pullNumber <= MAX_SAFE_INTEGER
    ensures ParseKey(Some(FormatKey(repoFullName, pullNumber)), other)
            == if '/' in repoFullName && pullNumber > 0 then Some(Target(repoFullName, pullNumber)) else None
  {
    hide Decimal.Format, Decimal.Value, LastHash;
    var digits := Decimal.Format(pullNumber);
    var key := FormatKey(repoFullName, pullNumber);
    LastHashAt(repoFullName, digits);
    assert key[..|repoFullName|] == repoFullName && key[|repoFullName| + 1..] == digits;
    Decimal.FormatRoundTrip(pullNumber);
    assert ToInteger(digits, other) == Some(pullNumber);
    hide ToInteger;
  }

  /**
   A key that parses names the repository exactly when it lies in its range and has one `#`; with two of them it
   can lie in the range of another repository.
  */
  lemma RangeMeansRepository(key: string, name: string, other: string -> Option<int>)
    requires ParseKey(Some(key), other).Some? && '#' !in name
    ensures var repo := ParseKey(Some(key), other).value.repoFullName;
      AsciiLower(repo) == name <==> InRange(AsciiLower(key), name) && '#' !in repo
  {
    var repo := ParseKey(Some(key), other).value.repoFullName;
    var lower := AsciiLower(key);
    RangeIsPrefix(lower, name);
    LowerKeepsHashes(repo);
    assert lower == AsciiLower(repo) + "#" + lower[|repo| + 1..] by {
      assert repo == key[..LastHash(key)] && key[|repo|] == '#';
    }
    hide AsciiLower, ParseKey, InRange;
    PrefixUpToHash(lower, name, AsciiLower(repo));
  }

  /** Text split at its first `#` has one first part. */
  lemma PrefixUpToHash(s: string, a: string, b: string)
    requires '#' !in a && |b| < |s| && s == b + "#" + s[|b| + 1..]
    ensures a == b <==> HasPrefix(s, a + "#") && '#' !in b
  {
    if a == b {
      assert a + "#" == s[..|b| + 1];
    }
    if HasPrefix(s, a + "#") && '#' !in b {
      assert s == a + "#" + s[|a| + 1..];
      IndexOfFirst(a, '#', s[|a| + 1..]);
      IndexOfFirst(b, '#', s[|b| + 1..]);
      assert a == s[..|a|] && b == s[..|b|];
    }
  }

  lemma LowerKeepsHashes(s: string)
    ensures '#' in AsciiLower(s) <==> '#' in s
  {
    if '#' in s {
      var i :| 0 <= i < |s| && s[i] == '#';
      assert AsciiLower(s)[i] == '#';
    }
  }

  // ----- the page -----

  datatype Row = Row(id: string, targetKey: Option<string>, detail: Option<string>, outcome: string, createdAt: string)

  /** fold is `toLowerCase`; scope the repository names of the caller, or None for all repositories. */
  datatype Query = Query(
    limit: Option<int>, scope: Option<seq<string>>, reason: Option<string>, sinceIso: Option<string>,
    fold: string -> string, other: string -> Option<int>)

  datatype Item = Item(repoFullName: string, pullNumber: int, reason: string, outcome: string, createdAt: string)

  datatype Page = Page(limit: nat, hasMore: bool, items: seq<Item>)

  function Clamp(limit: Option<int>): (n: nat)
    ensures 1 <= n <= 100
  {
    var value := if limit.Some? then limit.value else 50;
    if value < 1 then 1 else if value > 100 then 100 else value
  }

  predicate InScope(q: Query, row: Row) {
    q.scope.Some? ==>
      row.targetKey.Some?
      && exists name :: name in q.scope.value && InRange(AsciiLower(row.targetKey.value), q.fold(name))
  }

  predicate Matches(q: Query, row: Row) {
    && (q.reason.Some? && q.reason.value != "" ==> row.detail == q.reason)
    && (q.sinceIso.Some? && q.sinceIso.value != "" ==> !Precedes(row.createdAt, q.sinceIso.value))
    && InScope(q, row)
  }

  function Matching(q: Query): Row -> bool {
    (row: Row) => Matches(q, row)
  }

  function Where(q: Query, rows: seq<Row>): seq<Row> {
    Filter(Matching(q), rows)
  }

  /** `ORDER BY created_at DESC, id DESC`. */
  predicate Newer(a: Row, b: Row) {
    Precedes(b.createdAt, a.createdAt) || (a.createdAt == b.createdAt && Precedes(b.id, a.id))
  }

  function ToItem(q: Query, row: Row): Option<Item> {
    var target := ParseKey(row.targetKey, q.other);
    if target.None? then None
    else
      Some(Item(target.value.repoFullName, target.value.pullNumber,
                if row.detail.Some? then row.detail.value else "skipped", row.outcome, row.createdAt))
  }

  function Items(q: Query, rows: seq<Row>): seq<Item>
  {
    if rows == [] then []
    else
      var n := |rows| - 1;
      var item := ToItem(q, rows[n]);
      Items(q, rows[..n]) + if item.Some? then [item.value] else []
  }

  function First<T>(s: seq<T>, n: nat): seq<T> {
    if |s| <= n then s else s[..n]
  }

  function ListSkips(q: Query, rows: seq<Row>): Page {
    var limit := Clamp(q.limit);
    if q.scope == Some([]) then Page(limit, false, [])
    else
      var items := Items(q, First(SortBy(Newer, Where(q, rows)), RowLimit(limit)));
      Page(limit, |items| > limit, First(items, limit))
  }

  /** A key parses exactly when it is a name with a slash, a `#` and a text that reads as a positive integer. */
  lemma ParseExactly(key: string, other: string -> Option<int>, t: Target)
    ensures ParseKey(Some(key), other) == Some(t) <==>
            exists number ::
              && '#' !in number && number != "" && key == t.repoFullName + "#" + number
              && '/' in t.repoFullName && t.pullNumber > 0 && ToInteger(number, other) == Some(t.pullNumber)
  {
    hide ToInteger;
    if ParseKey(Some(key), other) == Some(t) {
      var number := key[LastHash(key) + 1..];
      assert key == t.repoFullName + "#" + number;
    }
    if number :| '#' !in number && number != "" && key == t.repoFullName + "#" + number
                 && '/' in t.repoFullName && t.pullNumber > 0 && ToInteger(number, other) == Some(t.pullNumber) {
      LastHashAt(t.repoFullName, number);
      assert key[..|t.repoFullName|] == t.repoFullName && key[|t.repoFullName| + 1..] == number;
    }
  }

  lemma ItemsLast(q: Query, past: seq<Row>, row: Row)
    ensures Items(q, past + [row])
            == if ToItem(q, row).Some? then Items(q, past) + [ToItem(q, row).value] else Items(q, past)
  {
    assert (past + [row])[..|past|] == past;
  }

  lemma {:induction false} ItemsAre(q: Query, rows: seq<Row>, item: Item)
    ensures item in Items(q, rows) <==> exists row :: row in rows && ToItem(q, row) == Some(item)
  {
    hide ToItem;
    if rows != [] {
      var past, row := rows[..|rows| - 1], rows[|rows| - 1];
      assert rows == past + [row];
      ItemsAre(q, past, item);
      ItemsLast(q, past, row);
      hide Items;
      assert forall x :: x in rows <==> x in past || x == row;
    }
  }

  /** The first rows have the first items. */
  lemma {:induction false} ItemsOfFirst(q: Query, rows: seq<Row>, n: nat)
    ensures var found, all := Items(q, First(rows, n)), Items(q, rows); |found| <= |all| && found == all[..|found|]
  {
    hide ToItem, Items;
    if |rows| > n {
      var past := rows[..|rows| - 1];
      ItemsOfFirst(q, past, n);
      assert rows == past + [rows[|rows| - 1]] && First(rows, n) == First(past, n);
      ItemsLast(q, past, rows[|rows| - 1]);
    }
  }

  lemma {:induction false} AllParse(q: Query, rows: seq<Row>)
    requires forall row :: row in rows ==> ToItem(q, row).Some?
    ensures |Items(q, rows)| == |rows|
  {
    hide ToItem;
    if rows != [] {
      AllParse(q, rows[..|rows| - 1]);
    }
  }

  /** The rows the query is for, newest first. */
  function Newest(q: Query, rows: seq<Row>): seq<Row> {
    SortBy(Newer, Where(q, rows))
  }

  lemma NewestIs(q: Query, rows: seq<Row>)
    ensures Newest(q, rows) == SortBy(Newer, Where(q, rows))
  {
  }

  lemma NewestMembers(q: Query, rows: seq<Row>, row: Row)
    ensures row in Newest(q, rows) <==> row in rows && Matches(q, row)
  {
    SortPermutes(Newer, Where(q, rows));
    MembersOf(Newest(q, rows), Where(q, rows));
  }

  lemma NewestFirst(q: Query, rows: seq<Row>)
    ensures var newest := Newest(q, rows);
      forall i, j :: 0 <= i < j < |newest| ==>
        && !Precedes(newest[i].createdAt, newest[j].createdAt)
        && (newest[i].createdAt == newest[j].createdAt ==> !Precedes(newest[i].id, newest[j].id))
  {
    PrecedesIsStrict();
    assert Strict(Newer);
    SortSettles(Newer, Where(q, rows));
  }

  lemma EmptyScope(q: Query, rows: seq<Row>)
    requires q.scope == Some([])
    ensures Newest(q, rows) == []
  {
    BothEmpty(Where(q, rows), []);
  }

  function RowLimit(limit: nat): nat {
    if limit * 5 + 20 < 500 then limit * 5 + 20 else 500
  }

  /** The items of the rows that the query reads, and those of all matching rows. */
  function ReadItems(q: Query, rows: seq<Row>): seq<Item> {
    Items(q, First(Newest(q, rows), RowLimit(Clamp(q.limit))))
  }

  function AllItems(q: Query, rows: seq<Row>): seq<Item> {
    Items(q, Newest(q, rows))
  }

  /** The page holds the first items that were read, and says whether more of them were read. */
  lemma PageOfRead(q: Query, rows: seq<Row>)
    ensures var limit, read := Clamp(q.limit), ReadItems(q, rows);
      ListSkips(q, rows) == Page(limit, |read| > limit, First(read, limit))
  {
    hide Newest, Matches, Clamp, ToItem;
    assert Newest(q, rows) == SortBy(Newer, Where(q, rows)) by { NewestIs(q, rows); }
    if q.scope == Some([]) {
      EmptyScope(q, rows);
    }
  }

  /**
   The page is what all matching rows give exactly when more items than it holds were read, or none was left unread:
   otherwise rows that do not parse have used up the row limit.
  */
  lemma PageIsExact(q: Query, rows: seq<Row>)
    ensures var limit, read, all := Clamp(q.limit), ReadItems(q, rows), AllItems(q, rows);
      ListSkips(q, rows) == Page(limit, |all| > limit, First(all, limit)) <==> |read| > limit || |read| == |all|
  {
    hide Items, Newest, Clamp;
    PageOfRead(q, rows);
    ItemsOfFirst(q, Newest(q, rows), RowLimit(Clamp(q.limit)));
    var limit, read, all := Clamp(q.limit), ReadItems(q, rows), AllItems(q, rows);
    assert |read| > limit ==> First(all, limit) == First(read, limit);
    assert |read| == |all| ==> read == all;
  }

  /** So it is whenever every matching key parses: the row limit never cuts into the page. */
  lemma PageIsNewest(q: Query, rows: seq<Row>)
    requires forall row :: row in rows && Matches(q, row) ==> ParseKey(row.targetKey, q.other).Some?
    ensures var limit, newest := Clamp(q.limit), Newest(q, rows);
      ListSkips(q, rows) == Page(limit, |newest| > limit, First(Items(q, newest), limit))
  {
    hide Newest, Matches, ToItem, Items;
    var newest := Newest(q, rows);
    assert forall row :: row in newest ==> ToItem(q, row).Some? by { NewestParse(q, rows); }
    AllParse(q, newest);
    AllParse(q, First(newest, RowLimit(Clamp(q.limit))));
    PageIsExact(q, rows);
  }

  lemma NewestParse(q: Query, rows: seq<Row>)
    requires forall row :: row in rows && Matches(q, row) ==> ParseKey(row.targetKey, q.other).Some?
    ensures forall row :: row in Newest(q, rows) ==> ToItem(q, row).Some?
  {
    hide Newest, Matches, ParseKey;
    forall row | row in Newest(q, rows) ensures ToItem(q, row).Some? {
      NewestMembers(q, rows, row);
    }
  }

  // ----- what the items are -----

  /** The row is one the query is for, and the item is what it says. */
  ghost predicate Answers(q: Query, row: Row, item: Item) {
    && (q.scope.Some? ==>
          row.targetKey.Some?
          && exists name :: name in q.scope.value && HasPrefix(AsciiLower(row.targetKey.value), q.fold(name) + "#"))
    && (q.reason.Some? && |q.reason.value| > 0 ==> row.detail == q.reason)
    && (q.sinceIso.Some? && |q.sinceIso.value| > 0 ==> !Precedes(row.createdAt, q.sinceIso.value))
    && ParseKey(row.targetKey, q.other) == Some(Target(item.repoFullName, item.pullNumber))
    && item.reason == (if row.detail.Some? then row.detail.value else "skipped")
    && item.outcome == row.outcome && item.createdAt == row.createdAt
  }

  lemma MatchMeans(q: Query, row: Row, item: Item)
    ensures Matches(q, row) && ToItem(q, row) == Some(item) <==> Answers(q, row, item)
  {
    hide ParseKey, InRange, AsciiLower;
    if row.targetKey.Some? {
      forall name ensures InRange(AsciiLower(row.targetKey.value), name)
                          <==> HasPrefix(AsciiLower(row.targetKey.value), name + "#") {
        RangeIsPrefix(AsciiLower(row.targetKey.value), name);
      }
    }
  }

  /** All items are those of the rows in scope, with the reason asked for and not before the time asked for. */
  lemma AllItemsMean(q: Query, rows: seq<Row>, item: Item)
    ensures item in AllItems(q, rows) <==> exists row :: row in rows && Answers(q, row, item)
  {
    hide Newest, Items, Matches, ToItem, Answers;
    ItemsAre(q, Newest(q, rows), item);
    forall row
      ensures row in Newest(q, rows) && ToItem(q, row) == Some(item) <==> row in rows && Answers(q, row, item)
    {
      NewestMembers(q, rows, row);
      MatchMeans(q, row, item);
    }
  }

  /** A page holds between one and a hundred items, as many as asked for within that, and fifty by default. */
  lemma LimitMeans(q: Query, rows: seq<Row>)
    ensures var page := ListSkips(q, rows);
      && |page.items| <= page.limit && 1 <= page.limit <= 100
      && (q.limit == None ==> page.limit == 50)
      && (q.limit.Some? && 1 <= q.limit.value <= 100 ==> page.limit == q.limit.value)
      && (q.limit.Some? && q.limit.value < 1 ==> page.limit == 1)
      && (q.limit.Some? && q.limit.value > 100 ==> page.limit == 100)
  {
    hide Items, SortBy, Where;
  }

  /** The rows read are the newest five hundred at most, and otherwise five for every item and twenty more. */
  lemma ReadMeans(q: Query, rows: seq<Row>)
    ensures var n := if 5 * Clamp(q.limit) + 20 <= 500 then 5 * Clamp(q.limit) + 20 else 500;
      ReadItems(q, rows) == Items(q, if |Newest(q, rows)| <= n then Newest(q, rows) else Newest(q, rows)[..n])
  {
    hide Items, Newest;
  }

  // ----- an input on which the page is not exact -----

  function Letters(n: nat): string {
    seq(n, _ => 'a')
  }

  /** Newer rows without a key, as many as a page of one item reads, and an older one that parses. */
  function Crowded(): seq<Row> {
    seq(25, i requires 0 <= i < 25 => Row(Letters(25 - i), None, None, "success", "b"))
    + [Row("z", Some(FormatKey("o/r", 1)), None, "success", "a")]
  }

  function AllRepositories(fold: string -> string, other: string -> Option<int>): Query {
    Query(Some(1), None, None, None, fold, other)
  }

  lemma {:induction false} ShorterFirst(m: nat, n: nat)
    requires m >= n
    ensures !Precedes(Letters(m), Letters(n))
  {
    if n > 0 {
      assert Letters(m)[1..] == Letters(m - 1) && Letters(n)[1..] == Letters(n - 1);
      ShorterFirst(m - 1, n - 1);
    }
  }

  lemma CrowdedPair(i: nat, j: nat)
    requires i < j <= 25
    ensures !Newer(Crowded()[j], Crowded()[i])
  {
    if j < 25 {
      ShorterFirst(25 - i, 25 - j);
    } else {
      OrderLaws("a", "b", "");
      assert Precedes("a", "b");
    }
  }

  lemma CrowdedSettled()
    ensures Settled(Newer, Crowded())
  {
    assert |Crowded()| == 26;
    hide Newer, Crowded;
    forall i, j | 0 <= i < j < |Crowded()| ensures !Newer(Crowded()[j], Crowded()[i]) {
      CrowdedPair(i, j);
    }
  }

  lemma AllMatch(q: Query, row: Row)
    requires q.scope == None && q.reason == None && q.sinceIso == None
    ensures Matching(q)(row)
  {
  }

  lemma CrowdedIsNewest(q: Query)
    requires q.scope == None && q.reason == None && q.sinceIso == None
    ensures Newest(q, Crowded()) == Crowded()
  {
    hide Crowded, Newer, Matching, SortBy, Filter;
    forall row ensures Matching(q)(row) {
      AllMatch(q, row);
    }
    FilterAll(Matching(q), Crowded());
    CrowdedSettled();
    SortOfSettled(Newer, Crowded());
  }

  lemma {:induction false} NoItems(q: Query, rows: seq<Row>)
    requires forall i :: 0 <= i < |rows| ==> rows[i].targetKey == None
    ensures Items(q, rows) == []
  {
    if rows != [] {
      NoItems(q, rows[..|rows| - 1]);
    }
  }

  /** The page is empty and says there is no more, although the last row matches and parses. */
  lemma CrowdedPageIsEmpty(fold: string -> string, other: string -> Option<int>)
    ensures var q := AllRepositories(fold, other);
      && ListSkips(q, Crowded()) == Page(1, false, [])
      && AllItems(q, Crowded()) == [Item("o/r", 1, "skipped", "success", "a")]
  {
    var q, rows := AllRepositories(fold, other), Crowded();
    CrowdedIsNewest(q);
    PageOfRead(q, rows);
    hide Newest, Items, ListSkips, ParseKey;
    var unread, last := rows[..25], rows[25];
    assert First(rows, RowLimit(1)) == unread && rows == unread + [last];
    assert last == Row("z", Some(FormatKey("o/r", 1)), None, "success", "a");
    assert forall i :: 0 <= i < 25 ==> unread[i].targetKey == None;
    hide Crowded, FormatKey;
    NoItems(q, unread);
    ParseFormat("o/r", 1, other);
    ItemsLast(q, unread, last);
  }

  /** Every item comes from a matching row and, unless its name has a `#`, is of one of the caller's repositories. */
  lemma ItemsInScope(q: Query, rows: seq<Row>, item: Item)
    requires q.scope.Some? && forall name :: name in q.scope.value ==> '#' !in q.fold(name)
    requires item in ListSkips(q, rows).items
    ensures exists row :: row in rows && Matches(q, row) && ToItem(q, row) == Some(item)
    ensures '#' !in item.repoFullName ==>
              exists name :: name in q.scope.value && AsciiLower(item.repoFullName) == q.fold(name)
  {
    hide SortBy, ParseKey, InRange, AsciiLower;
    var newest := Newest(q, rows);
    var limit := Clamp(q.limit);
    ItemsAre(q, First(newest, RowLimit(limit)), item);
    var row :| row in First(newest, RowLimit(limit)) && ToItem(q, row) == Some(item);
    NewestMembers(q, rows, row);
    if '#' !in item.repoFullName {
      var name :| name in q.scope.value && InRange(AsciiLower(row.targetKey.value), q.fold(name));
      RangeMeansRepository(row.targetKey.value, q.fold(name), q.other);
    }
  }
}
