/**
 Pruning of expired log rows in bounded batches (src/db/retention.ts).
 Timestamps are milliseconds; canonical ISO-8601 texts sort like the instants they name.
*/
module Retention {
  import opened Arith
  import opened Instants
  import opened Options

  datatype Rule = Rule(table: string, column: string, days: int)

  const BATCH_SIZE := 1000
  const MAX_DELETED_PER_TABLE := 50_000

  const RETENTION_POLICY: seq<Rule> := [
    Rule("audit_events", "created_at", 90),
    Rule("ai_usage_events", "created_at", 90),
    Rule("product_usage_events", "occurred_at", 180),
    Rule("github_rate_limit_observations", "observed_at", 30),
    Rule("signal_snapshots", "generated_at", 90),
    Rule("score_previews", "generated_at", 90),
    Rule("repo_snapshots", "fetched_at", 90)]

  /** The timestamp columns of a row; a null column is absent. */
  type Row = map<string, int>
  /** Rows by rowid. */
  type Table = map<int, Row>
  type Tables = map<string, Table>

  datatype PruneResult = PruneResult(table: string, column: string, cutoff: int, deleted: nat)

  datatype Outcome =
    | Pruned(results: seq<PruneResult>)
    | UnsafeIdentifier(rule: Rule)
    | NoSuchTable(rule: Rule)
    | NoSuchColumn(rule: Rule)
    | NeverEnds(rule: Rule)

  /** `/^[a-z_]+$/`. */
  predicate SafeIdentifier(s: string) {
    s != "" && forall k :: 0 <= k < |s| ==> 'a' <= s[k] <= 'z' || s[k] == '_'
  }

  function Cutoff(days: int, nowMs: int): int {
    nowMs - days * MS_PER_DAY
  }

  function Expired(t: Table, column: string, cutoff: int): set<int> {
    set id | id in t && column in t[id] && t[id][column] < cutoff
  }

  /** The most rows one run deletes from one table: whole batches until the cap is reached. */
  function Quota(batchSize: int, maxPerTable: int): int
    requires batchSize >= 1
  {
    batchSize * Max(1, CeilDiv(maxPerTable, batchSize))
  }

  /** Rows one statement removes: a limit of zero removes none, a negative limit is no limit. */
  function Changes(remaining: nat, batchSize: int): nat {
    if batchSize < 0 then remaining else Min(remaining, batchSize)
  }

  /** Rows one run removes; without a positive batch size, those of its only statement. */
  function Reach(expired: nat, batchSize: int, maxPerTable: int): nat {
    if batchSize >= 1 then Min(expired, Max(0, Quota(batchSize, maxPerTable))) else Changes(expired, batchSize)
  }

  /** Where the batch loop ends on a table with that many expired rows (see LoopEnds). */
  predicate Ending(expired: nat, batchSize: int, maxPerTable: int) {
    batchSize >= 1 || maxPerTable <= 0 || (batchSize < 0 && expired >= maxPerTable)
  }

  /** What one run over one rule may do: remove that many expired rows, and nothing else. */
  ghost predicate PruneStep(before: Table, after: Table, column: string, cutoff: int, deleted: int) {
    var gone := before.Keys - after.Keys;
    gone <= Expired(before, column, cutoff) && |gone| == deleted && after == before - gone
  }

  lemma {:induction false} SomeSubset<T>(s: set<T>, n: nat) returns (sub: set<T>)
    requires n <= |s|
    ensures sub <= s && |sub| == n
  {
    if n == 0 {
      sub := {};
    } else {
      var x :| x in s;
      var rest := SomeSubset(s - {x}, n - 1);
      sub := rest + {x};
    }
  }

  lemma DeletingExpired(t: Table, victims: set<int>, column: string, cutoff: int)
    requires victims <= Expired(t, column, cutoff)
    ensures Expired(t - victims, column, cutoff) == Expired(t, column, cutoff) - victims
    ensures |Expired(t - victims, column, cutoff)| == |Expired(t, column, cutoff)| - |victims|
  {
  }

  lemma StepFromGone(t: Table, gone: set<int>, column: string, cutoff: int)
    requires gone <= Expired(t, column, cutoff)
    ensures PruneStep(t, t - gone, column, cutoff, |gone|)
  {
    assert t.Keys - (t - gone).Keys == gone;
  }

  lemma MinusTwice(t: Table, a: set<int>, b: set<int>)
    requires b <= t.Keys - a
    ensures (t - a) - b == t - (a + b) && a !! b
  {
  }

  lemma ExpiredKeys(t: Table, column: string, cutoff: int)
    ensures Expired(t, column, cutoff) <= t.Keys
  {
  }

  /** Expired rows leave in two goes as in one. */
  lemma StepTwice(a: Table, b: Table, c: Table, column: string, cutoff: int, m: int, n: int)
    requires PruneStep(a, b, column, cutoff, m) && PruneStep(b, c, column, cutoff, n)
    ensures PruneStep(a, c, column, cutoff, m + n)
  {
    var first, second := a.Keys - b.Keys, b.Keys - c.Keys;
    DeletingExpired(a, first, column, cutoff);
    ExpiredKeys(a, column, cutoff);
    hide Expired;
    MinusTwice(a, first, second);
    StepFromGone(a, first + second, column, cutoff);
  }

  lemma StepExpired(before: Table, after: Table, column: string, cutoff: int, deleted: int)
    requires PruneStep(before, after, column, cutoff, deleted)
    ensures |after.Keys| == |before.Keys| - deleted
    ensures |Expired(after, column, cutoff)| == |Expired(before, column, cutoff)| - deleted
  {
    assert before.Keys == after.Keys + (before.Keys - after.Keys);
    DeletingExpired(before, before.Keys - after.Keys, column, cutoff);
  }

  function ExpiredIn(tables: Tables, table: string, column: string, cutoff: int): nat {
    if table in tables then |Expired(tables[table], column, cutoff)| else 0
  }

  /** Every other table is as it was. */
  ghost predicate OnlyTable(before: Tables, after: Tables, table: string) {
    table in before && table in after && after - {table} == before - {table}
  }

  /** One table lost that many expired rows, and nothing else changed. */
  ghost predicate Removed(before: Tables, after: Tables, table: string, column: string, cutoff: int, deleted: int) {
    OnlyTable(before, after, table) && PruneStep(before[table], after[table], column, cutoff, deleted)
  }

  lemma UpdateRemoves(tables: Tables, table: string, gone: set<int>, column: string, cutoff: int)
    requires table in tables && gone <= Expired(tables[table], column, cutoff)
    ensures Removed(tables, tables[table := tables[table] - gone], table, column, cutoff, |gone|)
  {
    hide Expired, PruneStep, OnlyTable;
    var t := tables[table] - gone;
    UpdateOnly(tables, table, t);
    StepFromGone(tables[table], gone, column, cutoff);
  }

  lemma UpdateOnly(tables: Tables, table: string, t: Table)
    requires table in tables
    ensures OnlyTable(tables, tables[table := t], table)
  {
  }

  lemma NothingRemoved(tables: Tables, table: string, column: string, cutoff: int)
    requires table in tables
    ensures Removed(tables, tables, table, column, cutoff, 0)
  {
  }

  lemma StillThere(before: Tables, after: Tables, table: string, column: string, cutoff: int, deleted: int)
    requires Removed(before, after, table, column, cutoff, deleted)
    ensures table in after
  {
  }

  lemma RemovedTwice(a: Tables, b: Tables, c: Tables, table: string, column: string, cutoff: int, m: int, n: int)
    requires Removed(a, b, table, column, cutoff, m) && Removed(b, c, table, column, cutoff, n)
    ensures Removed(a, c, table, column, cutoff, m + n)
    ensures ExpiredIn(b, table, column, cutoff) == ExpiredIn(a, table, column, cutoff) - m
  {
    hide PruneStep, Expired;
    StepTwice(a[table], b[table], c[table], column, cutoff, m, n);
    StepExpired(a[table], b[table], column, cutoff, m);
  }

  class Database {
    /** The columns of every table. */
    const columns: map<string, set<string>>
    var tables: Tables

    constructor (columns: map<string, set<string>>, tables: Tables)
      ensures this.columns == columns && this.tables == tables
    {
      this.columns, this.tables := columns, tables;
    }

    /** `DELETE ... WHERE rowid IN (SELECT rowid ... LIMIT batchSize)`: which expired rows go is up to the engine. */
    method DeleteBatch(table: string, column: string, cutoff: int, batchSize: int) returns (changes: nat)
      requires table in tables
      modifies this`tables
      ensures Removed(old(tables), tables, table, column, cutoff, changes)
      ensures changes == Changes(ExpiredIn(old(tables), table, column, cutoff), batchSize)
    {
      var t := tables[table];
      hide Removed, Expired;
      var expired := Expired(t, column, cutoff);
      ghost var some := SomeSubset(expired, Changes(|expired|, batchSize));
      var chosen: set<int> :| chosen <= expired && |chosen| == Changes(|expired|, batchSize);
      UpdateRemoves(tables, table, chosen, column, cutoff);
      tables := tables[table := t - chosen];
      changes := |chosen|;
    }

    /** The batch loop over one table. */
    method PruneTable(table: string, column: string, cutoff: int, batchSize: int, maxPerTable: int)
      returns (deleted: nat)
      requires table in tables && Ending(ExpiredIn(tables, table, column, cutoff), batchSize, maxPerTable)
      modifies this`tables
      ensures Removed(old(tables), tables, table, column, cutoff, deleted)
      ensures deleted == Reach(ExpiredIn(old(tables), table, column, cutoff), batchSize, maxPerTable)
    {
      hide FullBatches, Reach, Changes, Ending, ExpiredIn, Removed;
      ghost var total, batches := ExpiredIn(tables, table, column, cutoff), 0;
      NoBatches(batchSize, maxPerTable);
      NothingRemoved(tables, table, column, cutoff);
      deleted := 0;
      while true
        invariant Removed(old(tables), tables, table, column, cutoff, deleted)
        invariant deleted <= total && FullBatches(deleted, batchSize, batches, maxPerTable)
        decreases total - deleted
      {
        ghost var before := tables;
        StillThere(old(tables), tables, table, column, cutoff, deleted);
        var changes := DeleteBatch(table, column, cutoff, batchSize);
        RemovedTwice(old(tables), before, tables, table, column, cutoff, deleted, changes);
        StatementReached(batchSize, maxPerTable, batches, total, deleted, changes);
        deleted := deleted + changes;
        if changes < batchSize || deleted >= maxPerTable { break; }
        batches := batches + 1;
      }
    }

    /** One round of the outer loop. */
    method RunRule(dryRun: bool, nowMs: int, rule: Rule, batchSize: int, maxPerTable: int) returns (result: PruneResult)
      requires SafeRule(rule) && rule.table in tables
      requires dryRun || RuleEnds(tables, rule, nowMs, batchSize, maxPerTable)
      modifies this`tables
      ensures RuleStep(old(tables), tables, rule, result, dryRun, nowMs, batchSize, maxPerTable)
    {
      hide Reach, ExpiredIn, Removed;
      var cutoff := Cutoff(rule.days, nowMs);
      var deleted;
      if dryRun {
        deleted := ExpiredIn(tables, rule.table, rule.column, cutoff);
      } else {
        deleted := PruneTable(rule.table, rule.column, cutoff, batchSize, maxPerTable);
      }
      result := PruneResult(rule.table, rule.column, cutoff, deleted);
    }

    /**
     One run over a policy. The ghost results are the steps that were taken, also when a later rule throws, and the
     ghost states are the tables before and after each of them. Where the loop of a rule would run for ever the answer
     is NeverEnds, with the tables as they were before that rule.
    */
    method PruneExpiredRecords(dryRun: bool, nowMs: int, options: PruneOptions) returns (
        outcome: Outcome, ghost taken: seq<PruneResult>, ghost states: seq<Tables>)
      modifies this`tables
      ensures |states| == |taken| + 1 && |taken| <= |options.Policy()|
      ensures states[0] == old(tables) && states[|taken|] == tables
      ensures forall i :: 0 <= i < |taken| ==>
                RuleStep(states[i], states[i + 1], options.Policy()[i], taken[i], dryRun, nowMs,
                         options.BatchSize(), options.MaxPerTable())
      ensures if |taken| == |options.Policy()| then outcome == Pruned(taken)
              else Refusal(columns, tables, options.Policy()[|taken|], dryRun, nowMs, options) == Some(outcome)
    {
      var policy, batchSize, maxPerTable := options.Policy(), options.BatchSize(), options.MaxPerTable();
      var results := [];
      taken, states := results, [tables];
      for i := 0 to |policy|
        invariant taken == results && |results| == i && |states| == i + 1
        invariant states[0] == old(tables) && states[i] == tables
        invariant forall j :: 0 <= j < i ==>
                    RuleStep(states[j], states[j + 1], policy[j], taken[j], dryRun, nowMs, batchSize, maxPerTable)
      {
        hide RuleStep;
        var rule := policy[i];
        if !SafeRule(rule) {
          return UnsafeIdentifier(rule), taken, states;
        }
        if rule.table !in tables || rule.table !in columns {
          return NoSuchTable(rule), taken, states;
        }
        if rule.column !in columns[rule.table] {
          return NoSuchColumn(rule), taken, states;
        }
        if !dryRun && !RuleEnds(tables, rule, nowMs, batchSize, maxPerTable) {
          return NeverEnds(rule), taken, states;
        }
        var result := RunRule(dryRun, nowMs, rule, batchSize, maxPerTable);
        results := results + [result];
        taken, states := results, states + [tables];
      }
      outcome := Pruned(results);
    }
  }

  /** What a caller may set; the source's defaults otherwise. */
  datatype PruneOptions = PruneOptions(policy: Option<seq<Rule>>, batchSize: Option<int>, maxPerTable: Option<int>)
  {
    function Policy(): seq<Rule> {
      if policy.Some? then policy.value else RETENTION_POLICY
    }

    function BatchSize(): int {
      if batchSize.Some? then batchSize.value else BATCH_SIZE
    }

    function MaxPerTable(): int {
      if maxPerTable.Some? then maxPerTable.value else MAX_DELETED_PER_TABLE
    }
  }

  predicate SafeRule(rule: Rule) {
    SafeIdentifier(rule.table) && SafeIdentifier(rule.column)
  }

  /** Why a rule yields no result, if it does not. */
  function Refusal(columns: map<string, set<string>>, tables: Tables, rule: Rule, dryRun: bool, nowMs: int,
                   options: PruneOptions): Option<Outcome>
  {
    if !SafeRule(rule) then Some(UnsafeIdentifier(rule))
    else if rule.table !in tables || rule.table !in columns then Some(NoSuchTable(rule))
    else if rule.column !in columns[rule.table] then Some(NoSuchColumn(rule))
    else if dryRun || RuleEnds(tables, rule, nowMs, options.BatchSize(), options.MaxPerTable()) then None
    else Some(NeverEnds(rule))
  }

  predicate RuleEnds(tables: Tables, rule: Rule, nowMs: int, batchSize: int, maxPerTable: int) {
    Ending(ExpiredIn(tables, rule.table, rule.column, Cutoff(rule.days, nowMs)), batchSize, maxPerTable)
  }

  /** What handling one rule does and reports; a dry run counts and changes nothing. */
  ghost predicate RuleStep(before: Tables, after: Tables, rule: Rule, result: PruneResult, dryRun: bool, nowMs: int,
                           batchSize: int, maxPerTable: int)
  {
    var cutoff := Cutoff(rule.days, nowMs);
    var expired := ExpiredIn(before, rule.table, rule.column, cutoff);
    && SafeRule(rule) && rule.table in before
    && result.table == rule.table && result.column == rule.column && result.cutoff == cutoff
    && if dryRun then after == before && result.deleted == expired
       else
         && Removed(before, after, rule.table, rule.column, cutoff, result.deleted)
         && result.deleted == Reach(expired, batchSize, maxPerTable)
  }

  /** So far only full batches, and the cap is not reached. */
  ghost predicate FullBatches(deleted: nat, batchSize: int, batches: nat, maxPerTable: int) {
    deleted == batchSize * batches && (batches == 0 || deleted < maxPerTable)
  }

  lemma NoBatches(batchSize: int, maxPerTable: int)
    ensures FullBatches(0, batchSize, 0, maxPerTable)
  {
  }

  /** Where the loop stands after one more statement. */
  lemma StatementReached(batchSize: int, maxPerTable: int, batches: nat, total: nat, deleted: nat, changes: nat)
    requires Ending(total, batchSize, maxPerTable) && FullBatches(deleted, batchSize, batches, maxPerTable)
    requires deleted <= total && changes == Changes(total - deleted, batchSize)
    ensures deleted + changes <= total
    ensures !(changes < batchSize || deleted + changes >= maxPerTable) ==>
              changes >= 1 && FullBatches(deleted + changes, batchSize, batches + 1, maxPerTable)
    ensures changes < batchSize || deleted + changes >= maxPerTable ==>
              deleted + changes == Reach(total, batchSize, maxPerTable)
  {
    if batchSize >= 1 {
      QuotaReached(batchSize, maxPerTable, batches, total, deleted, changes);
    } else {
      assert deleted == 0 by { OnlyStatement(deleted, batchSize, batches, maxPerTable); }
    }
  }

  lemma OnlyStatement(deleted: nat, batchSize: int, batches: nat, maxPerTable: int)
    requires batchSize <= 0 && FullBatches(deleted, batchSize, batches, maxPerTable)
    ensures deleted == 0
  {
  }

  lemma QuotaReached(batchSize: int, maxPerTable: int, batches: nat, total: nat, deleted: nat, changes: nat)
    requires batchSize >= 1 && FullBatches(deleted, batchSize, batches, maxPerTable)
    requires deleted <= total && changes == Min(total - deleted, batchSize)
    ensures changes == batchSize && deleted + changes < maxPerTable ==>
              FullBatches(deleted + changes, batchSize, batches + 1, maxPerTable)
    ensures changes < batchSize || deleted + changes >= maxPerTable ==>
              deleted + changes == Min(total, Quota(batchSize, maxPerTable))
    ensures Quota(batchSize, maxPerTable) >= batchSize
  {
    var rounds := Max(1, CeilDiv(maxPerTable, batchSize));
    MulLess(batchSize, batches);
    DivBounds(maxPerTable + batchSize - 1, batchSize);
    MulLess(batchSize, rounds);
    MulMonotone(batchSize, 1, rounds);
    if batches + 1 < rounds {
      MulGap(batchSize, batches + 1, rounds);
    } else if rounds < batches + 1 {
      MulGap(batchSize, rounds, batches + 1);
    }
  }

  // ----- a run over a policy that names every table once -----

  predicate DistinctTables(policy: seq<Rule>) {
    forall i, j :: 0 <= i < j < |policy| ==> policy[i].table != policy[j].table
  }

  ghost predicate Run(states: seq<Tables>, policy: seq<Rule>, results: seq<PruneResult>, nowMs: int,
                      batchSize: int, maxPerTable: int)
  {
    && |states| == |policy| + 1 && |results| == |policy|
    && forall i :: 0 <= i < |policy| ==>
         RuleStep(states[i], states[i + 1], policy[i], results[i], false, nowMs, batchSize, maxPerTable)
  }

  /** Rules that do not name a table leave it alone. */
  lemma {:induction false} Untouched(states: seq<Tables>, policy: seq<Rule>, results: seq<PruneResult>, nowMs: int,
                                     batchSize: int, maxPerTable: int, name: string, lo: nat, hi: nat)
    requires Run(states, policy, results, nowMs, batchSize, maxPerTable) && lo <= hi <= |policy|
    requires forall i :: lo <= i < hi ==> policy[i].table != name
    ensures name in states[lo] <==> name in states[hi]
    ensures name in states[lo] ==> states[hi][name] == states[lo][name]
    decreases hi - lo
  {
    hide PruneStep, Expired;
    if lo < hi {
      var before, after, t := states[hi - 1], states[hi], policy[hi - 1].table;
      assert RuleStep(before, after, policy[hi - 1], results[hi - 1], false, nowMs, batchSize, maxPerTable);
      OtherTables(before, after, t, name);
      Untouched(states, policy, results, nowMs, batchSize, maxPerTable, name, lo, hi - 1);
    }
  }

  lemma OtherTables(before: Tables, after: Tables, t: string, name: string)
    requires after - {t} == before - {t} && name != t
    ensures name in before <==> name in after
    ensures name in before ==> after[name] == before[name]
  {
    assert name in before <==> name in before - {t};
    assert name in after <==> name in after - {t};
    assert name in before ==> (before - {t})[name] == before[name];
    assert name in after ==> (after - {t})[name] == after[name];
  }

  /** Every table a policy names loses expired rows only, and the run reports how many. */
  ghost predicate Pruning(before: Tables, after: Tables, rule: Rule, result: PruneResult, nowMs: int,
                          batchSize: int, maxPerTable: int)
  {
    && rule.table in before && rule.table in after
    && var cutoff := Cutoff(rule.days, nowMs);
       && PruneStep(before[rule.table], after[rule.table], rule.column, cutoff, result.deleted)
       && result.deleted
          == Reach(ExpiredIn(before, rule.table, rule.column, cutoff), batchSize, maxPerTable)
  }

  /** A whole run over such a policy; every other table is as it was. */
  lemma PolicyRun(states: seq<Tables>, policy: seq<Rule>, results: seq<PruneResult>, nowMs: int,
                  batchSize: int, maxPerTable: int)
    requires Run(states, policy, results, nowMs, batchSize, maxPerTable) && DistinctTables(policy)
    ensures forall i :: 0 <= i < |policy| ==>
              Pruning(states[0], states[|policy|], policy[i], results[i], nowMs, batchSize, maxPerTable)
    ensures forall name :: name in states[0] && (forall i :: 0 <= i < |policy| ==> policy[i].table != name) ==>
              name in states[|policy|] && states[|policy|][name] == states[0][name]
  {
    hide Expired, PruneStep, Reach;
    forall i | 0 <= i < |policy|
      ensures Pruning(states[0], states[|policy|], policy[i], results[i], nowMs, batchSize, maxPerTable)
    {
      var t := policy[i].table;
      assert RuleStep(states[i], states[i + 1], policy[i], results[i], false, nowMs, batchSize, maxPerTable);
      Untouched(states, policy, results, nowMs, batchSize, maxPerTable, t, 0, i);
      Untouched(states, policy, results, nowMs, batchSize, maxPerTable, t, i + 1, |policy|);
    }
    forall name | name in states[0] && (forall i :: 0 <= i < |policy| ==> policy[i].table != name)
      ensures name in states[|policy|] && states[|policy|][name] == states[0][name]
    {
      Untouched(states, policy, results, nowMs, batchSize, maxPerTable, name, 0, |policy|);
    }
  }

  /** Rows of a column older than so many days. */
  ghost predicate IsOlder(row: Row, column: string, days: int, nowMs: int) {
    column in row && row[column] < nowMs - 86_400_000 * days
  }

  /** The old rows of the table are gone, or fifty thousand of them, and all others are as they were. */
  ghost predicate OldRowsGo(before: Tables, after: Tables, table: string, column: string, days: int, nowMs: int) {
    && table in before && table in after
    && (forall id :: id in after[table] ==> id in before[table] && after[table][id] == before[table][id])
    && (forall id :: id in before[table] && !IsOlder(before[table][id], column, days, nowMs) ==> id in after[table])
    && ((forall id :: id in after[table] ==> !IsOlder(after[table][id], column, days, nowMs))
        || |before[table].Keys - after[table].Keys| == 50_000)
  }

  /** A name of lower-case letters and underscores only. */
  predicate IsPlainName(name: string) {
    name != "" && forall c :: c in name ==> c in "abcdefghijklmnopqrstuvwxyz_"
  }

  lemma SafeMeans(name: string)
    ensures SafeIdentifier(name) <==> IsPlainName(name)
  {
    forall c: char ensures c in "abcdefghijklmnopqrstuvwxyz_" <==> 'a' <= c <= 'z' || c == '_' {
      IsLetter(c);
    }
    assert forall k :: 0 <= k < |name| ==> name[k] in name;
  }

  lemma IsLetter(c: char)
    ensures c in "abcdefghijklmnopqrstuvwxyz_" <==> 'a' <= c <= 'z' || c == '_'
  {
    var allowed := "abcdefghijklmnopqrstuvwxyz_";
    if 'a' <= c <= 'z' {
      assert allowed[c as int - 97] == c;
    } else if c == '_' {
      assert allowed[26] == c;
    } else {
      assert forall k :: 0 <= k < 27 ==> allowed[k] != c;
    }
  }

  /** The rows of a table older than the days of a rule. */
  ghost function OldRows(t: Table, rule: Rule, nowMs: int): set<int> {
    set id | id in t && IsOlder(t[id], rule.column, rule.days, nowMs)
  }

  lemma OldRowsExpire(t: Table, rule: Rule, nowMs: int)
    ensures OldRows(t, rule, nowMs) == Expired(t, rule.column, Cutoff(rule.days, nowMs))
  {
    var cutoff := Cutoff(rule.days, nowMs);
    assert cutoff == nowMs - 86_400_000 * rule.days;
    forall id ensures id in OldRows(t, rule, nowMs) <==> id in Expired(t, rule.column, cutoff) {
    }
  }

  /** When a rule yields no result: an unsafe name, an unknown table, an unknown column or a loop that never ends. */
  lemma RefusalMeans(columns: map<string, set<string>>, tables: Tables, rule: Rule, dryRun: bool, nowMs: int,
                     options: PruneOptions)
    ensures var refusal := Refusal(columns, tables, rule, dryRun, nowMs, options);
      var safe := IsPlainName(rule.table) && IsPlainName(rule.column);
      var known := rule.table in tables && rule.table in columns;
      && (refusal == Some(UnsafeIdentifier(rule)) <==> !safe)
      && (refusal == Some(NoSuchTable(rule)) <==> safe && !known)
      && (refusal == Some(NoSuchColumn(rule)) <==> safe && known && rule.column !in columns[rule.table])
      && (refusal == Some(NeverEnds(rule)) <==>
            && safe && known && rule.column in columns[rule.table] && !dryRun
            && !Ending(|OldRows(tables[rule.table], rule, nowMs)|, options.BatchSize(), options.MaxPerTable()))
      && (refusal == None <==>
            && safe && known && rule.column in columns[rule.table]
            && (dryRun
                || Ending(|OldRows(tables[rule.table], rule, nowMs)|, options.BatchSize(), options.MaxPerTable())))
  {
    hide SafeIdentifier, IsPlainName, Ending, Expired, OldRows, Cutoff;
    SafeMeans(rule.table);
    SafeMeans(rule.column);
    if rule.table in tables {
      OldRowsExpire(tables[rule.table], rule, nowMs);
    }
  }

  lemma OptionsMean(policy: seq<Rule>, batchSize: int, maxPerTable: int)
    ensures var given := PruneOptions(Some(policy), Some(batchSize), Some(maxPerTable));
      given.Policy() == policy && given.BatchSize() == batchSize && given.MaxPerTable() == maxPerTable
    ensures var default := PruneOptions(None, None, None);
      default.Policy() == RETENTION_POLICY && default.BatchSize() == 1000 && default.MaxPerTable() == 50_000
  {
  }

  /** So many rows went, all of them old, and old ones stay only when as many as the cap and a batch went. */
  ghost predicate Shrinks(before: Table, after: Table, aged: set<int>, deleted: nat, batchSize: int, maxPerTable: int)
  {
    var gone := before.Keys - after.Keys;
    && after == before - gone && gone <= aged && |gone| == deleted
    && (batchSize >= 1 && gone != aged ==> deleted >= maxPerTable && deleted >= batchSize)
  }

  lemma StepShrinks(before: Table, after: Table, column: string, cutoff: int, deleted: nat, batchSize: int,
                    maxPerTable: int)
    requires PruneStep(before, after, column, cutoff, deleted)
    requires deleted == Reach(|Expired(before, column, cutoff)|, batchSize, maxPerTable)
    ensures Shrinks(before, after, Expired(before, column, cutoff), deleted, batchSize, maxPerTable)
  {
    hide Expired, Reach;
    var gone, aged := before.Keys - after.Keys, Expired(before, column, cutoff);
    if gone != aged {
      ProperSubset(gone, aged);
      ReachedCap(|aged|, batchSize, maxPerTable);
    }
  }

  lemma ProperSubset(part: set<int>, whole: set<int>)
    requires part < whole
    ensures |part| < |whole|
  {
    assert whole == part + (whole - part);
  }

  lemma ReachedCap(expired: nat, batchSize: int, maxPerTable: int)
    requires batchSize >= 1 ==> Reach(expired, batchSize, maxPerTable) < expired
    ensures batchSize >= 1 ==> Reach(expired, batchSize, maxPerTable) >= Max(maxPerTable, batchSize)
  {
    hide Quota;
    if batchSize >= 1 {
      QuotaIsEnough(batchSize, maxPerTable);
    }
  }

  /** A dry run counts the old rows and changes nothing; any other removes as many old rows as it reports. */
  lemma StepMeans(before: Tables, after: Tables, rule: Rule, result: PruneResult, dryRun: bool, nowMs: int,
                  batchSize: int, maxPerTable: int)
    requires RuleStep(before, after, rule, result, dryRun, nowMs, batchSize, maxPerTable)
    ensures rule.table in before && result.table == rule.table && result.column == rule.column
    ensures result.cutoff == nowMs - 86_400_000 * rule.days
    ensures dryRun ==> after == before && result.deleted == |OldRows(before[rule.table], rule, nowMs)|
    ensures !dryRun ==>
              && rule.table in after && after - {rule.table} == before - {rule.table}
              && Shrinks(before[rule.table], after[rule.table], OldRows(before[rule.table], rule, nowMs),
                         result.deleted, batchSize, maxPerTable)
  {
    hide Expired, OldRows, Reach, PruneStep, Shrinks;
    OldRowsExpire(before[rule.table], rule, nowMs);
    if !dryRun {
      StepShrinks(before[rule.table], after[rule.table], rule.column, result.cutoff, result.deleted,
                  batchSize, maxPerTable);
    }
  }

  lemma QuotaIsEnough(batchSize: int, maxPerTable: int)
    requires batchSize >= 1
    ensures Quota(batchSize, maxPerTable) >= batchSize && Quota(batchSize, maxPerTable) >= maxPerTable
  {
    var rounds := Max(1, CeilDiv(maxPerTable, batchSize));
    DivBounds(maxPerTable + batchSize - 1, batchSize);
    MulMonotone(batchSize, 1, rounds);
    MulMonotone(batchSize, CeilDiv(maxPerTable, batchSize), rounds);
  }

  lemma PruningMeans(before: Tables, after: Tables, rule: Rule, result: PruneResult, nowMs: int)
    requires Pruning(before, after, rule, result, nowMs, BATCH_SIZE, MAX_DELETED_PER_TABLE)
    ensures OldRowsGo(before, after, rule.table, rule.column, rule.days, nowMs)
  {
    var t, u, cutoff := before[rule.table], after[rule.table], Cutoff(rule.days, nowMs);
    var gone := t.Keys - u.Keys;
    var expired := Expired(t, rule.column, cutoff);
    assert forall id :: id in u ==> id in t && u[id] == t[id];
    assert forall id :: id in t ==> (id in expired <==> IsOlder(t[id], rule.column, rule.days, nowMs));
    assert Quota(BATCH_SIZE, MAX_DELETED_PER_TABLE) == 50_000;
    if |expired| <= 50_000 {
      assert expired == gone + (expired - gone);
    }
  }

  /** What a run with the default options does to the tables it is for. */
  lemma DefaultRunMeans(states: seq<Tables>, results: seq<PruneResult>, nowMs: int)
    requires var options := PruneOptions(None, None, None);
      Run(states, options.Policy(), results, nowMs, options.BatchSize(), options.MaxPerTable())
    ensures |states| == 8 && var before, after := states[0], states[7];
      && OldRowsGo(before, after, "audit_events", "created_at", 90, nowMs)
      && OldRowsGo(before, after, "ai_usage_events", "created_at", 90, nowMs)
      && OldRowsGo(before, after, "product_usage_events", "occurred_at", 180, nowMs)
      && OldRowsGo(before, after, "github_rate_limit_observations", "observed_at", 30, nowMs)
      && OldRowsGo(before, after, "signal_snapshots", "generated_at", 90, nowMs)
      && OldRowsGo(before, after, "score_previews", "generated_at", 90, nowMs)
      && OldRowsGo(before, after, "repo_snapshots", "fetched_at", 90, nowMs)
  {
    hide Run, Pruning, OldRowsGo;
    DefaultPolicyIsDistinct();
    RunLength(states, RETENTION_POLICY, results, nowMs, BATCH_SIZE, MAX_DELETED_PER_TABLE);
    PolicyRun(states, RETENTION_POLICY, results, nowMs, BATCH_SIZE, MAX_DELETED_PER_TABLE);
    forall i | 0 <= i < 7
      ensures OldRowsGo(states[0], states[7], RETENTION_POLICY[i].table, RETENTION_POLICY[i].column,
                        RETENTION_POLICY[i].days, nowMs)
    {
      PruningMeans(states[0], states[7], RETENTION_POLICY[i], results[i], nowMs);
    }
    assert RETENTION_POLICY[0] == Rule("audit_events", "created_at", 90);
    assert RETENTION_POLICY[1] == Rule("ai_usage_events", "created_at", 90);
    assert RETENTION_POLICY[2] == Rule("product_usage_events", "occurred_at", 180);
    assert RETENTION_POLICY[3] == Rule("github_rate_limit_observations", "observed_at", 30);
    assert RETENTION_POLICY[4] == Rule("signal_snapshots", "generated_at", 90);
    assert RETENTION_POLICY[5] == Rule("score_previews", "generated_at", 90);
    assert RETENTION_POLICY[6] == Rule("repo_snapshots", "fetched_at", 90);
  }

  lemma RunLength(states: seq<Tables>, policy: seq<Rule>, results: seq<PruneResult>, nowMs: int, batchSize: int,
                  maxPerTable: int)
    requires Run(states, policy, results, nowMs, batchSize, maxPerTable)
    ensures |states| == |policy| + 1 && |results| == |policy|
  {
  }

  lemma DefaultPolicyIsDistinct()
    ensures DistinctTables(RETENTION_POLICY)
  {
  }

  // ----- repeated runs at a fixed time -----

  function Sum(reports: seq<nat>): nat {
    if reports == [] then 0 else Sum(reports[..|reports| - 1]) + reports[|reports| - 1]
  }

  /** Consecutive runs over one rule at one time, with what each reported. */
  ghost predicate AreRuns(tables: seq<Table>, reports: seq<nat>, column: string, cutoff: int, quota: int) {
    && |tables| == |reports| + 1
    && forall i :: 0 <= i < |reports| ==>
         && PruneStep(tables[i], tables[i + 1], column, cutoff, reports[i])
         && reports[i] == Min(|Expired(tables[i], column, cutoff)|, quota)
  }

  /**
   n runs at one fixed time report exactly the first dry-run count in all, cut at n quotas, which is what the table
   loses, and leave the rest expired; so ceil(expired / quota) runs drain the table.
  */
  lemma {:induction false} RunsDrain(tables: seq<Table>, reports: seq<nat>, column: string, cutoff: int, quota: int)
    requires AreRuns(tables, reports, column, cutoff, quota) && quota >= 1
    ensures var n, count := |reports|, |Expired(tables[0], column, cutoff)|;
      && Sum(reports) == Min(count, quota * n) == |tables[0].Keys| - |tables[n].Keys|
      && |Expired(tables[n], column, cutoff)| == count - Sum(reports)
      && (Expired(tables[n], column, cutoff) == {} <==> n >= CeilDiv(count, quota))
    decreases |reports|
  {
    var n := |reports|;
    var count := |Expired(tables[0], column, cutoff)|;
    if n > 0 {
      EarlierRuns(tables, reports, column, cutoff, quota);
      RunsDrain(tables[..n], reports[..n - 1], column, cutoff, quota);
      StepExpired(tables[n - 1], tables[n], column, cutoff, reports[n - 1]);
      hide PruneStep;
      MulLess(quota, n);
    }
    CeilReached(count, quota, n);
  }

  lemma EarlierRuns(tables: seq<Table>, reports: seq<nat>, column: string, cutoff: int, quota: int)
    requires AreRuns(tables, reports, column, cutoff, quota) && reports != []
    ensures var n := |reports|; AreRuns(tables[..n], reports[..n - 1], column, cutoff, quota)
  {
    hide PruneStep, Expired;
  }

  lemma CeilReached(count: nat, quota: int, n: nat)
    requires quota >= 1
    ensures quota * n >= count <==> n >= CeilDiv(count, quota)
  {
    var c := CeilDiv(count, quota);
    DivBounds(count + quota - 1, quota);
    if n >= c {
      MulMonotone(quota, c, n);
    } else {
      MulGap(quota, n, c);
    }
  }

  // ----- when the batch loop ends -----

  /** Rows removed by the first k statements. */
  function DeletedAfter(total: nat, batchSize: int, k: nat): (d: nat)
    ensures d <= total
  {
    if k == 0 then 0
    else
      var d := DeletedAfter(total, batchSize, k - 1);
      d + Changes(total - d, batchSize)
  }

  /** The loop leaves after its statement number k + 1. */
  predicate LeavesAfter(total: nat, batchSize: int, maxPerTable: int, k: nat) {
    var d := DeletedAfter(total, batchSize, k);
    var changes := Changes(total - d, batchSize);
    changes < batchSize || d + changes >= maxPerTable
  }

  ghost predicate Ends(total: nat, batchSize: int, maxPerTable: int) {
    exists k: nat :: LeavesAfter(total, batchSize, maxPerTable, k)
  }

  lemma {:induction false} DeletesAll(total: nat, batchSize: int, k: nat)
    requires batchSize >= 1
    ensures DeletedAfter(total, batchSize, k) >= Min(total, k)
  {
    if k > 0 {
      DeletesAll(total, batchSize, k - 1);
    }
  }

  /** Without a positive batch size the first statement does all there is to do. */
  lemma {:induction false} DeletesAtOnce(total: nat, batchSize: int, k: nat)
    requires batchSize <= 0
    ensures DeletedAfter(total, batchSize, k) == if k == 0 then 0 else Changes(total, batchSize)
  {
    if k > 0 {
      DeletesAtOnce(total, batchSize, k - 1);
    }
  }

  /** The loop ends exactly when batches are positive, the cap is not, or one unlimited statement reaches the cap. */
  lemma LoopEnds(total: nat, batchSize: int, maxPerTable: int)
    ensures Ends(total, batchSize, maxPerTable) <==> Ending(total, batchSize, maxPerTable)
  {
    if batchSize >= 1 {
      DeletesAll(total, batchSize, total);
      assert LeavesAfter(total, batchSize, maxPerTable, total);
    } else {
      assert maxPerTable <= 0 ==> LeavesAfter(total, batchSize, maxPerTable, 0);
      assert batchSize < 0 && total >= maxPerTable ==> LeavesAfter(total, batchSize, maxPerTable, 0);
      forall k: nat ensures LeavesAfter(total, batchSize, maxPerTable, k) ==> Ending(total, batchSize, maxPerTable) {
        DeletesAtOnce(total, batchSize, k);
      }
    }
  }
}
