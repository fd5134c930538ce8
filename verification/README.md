# Verification of the Gittensory worker's state and data code

Dafny models of the parts of the worker that keep state or transform data, with proofs about whole runs, whole
inputs and whole documents. One module stands for one component; classes with mutable fields stand for tables,
caches and objects that the source updates in place, and functions for code that only computes.

- **Usage ledger.** Events are appended, rolled up per day and pruned. `UsageLedger` is a state machine over these
  steps plus a class with the operations. Main result: whenever the status is "ready" or "partial", every event day
  of the lookback has a stored rollup equal to a recomputation from the raw events of that moment. `UsageDimensions`
  holds the counted lists, `UsageReadings` when they depend on the order of the rows read, `UsageFigures` what a rollup
  computes, `UsageRetention` the retained actors on top of role inference.
- **Tables that are swept, pruned and merged.** `OpenSync` (mark and sweep of open items), `Retention` (batched
  deletes under a cap), `StatMerge` (merge of contributor figures), `TargetKeys` (range scan over `repo#number` keys),
  `BountyLog` (imports and the status log).
- **Printers and parsers.** `LocalWriteTools` against a tokenizer of the POSIX shell (`PosixShell`), `Base64Url` and
  `OAuthState` over `Utf8`, `Utf8Stream` for a body decoded chunk by chunk, `Cookies` with percent-encoding
  and the two cookie texts.
- **Time-driven machines and protocols.** `RateLimiter`, `TokenCache`, `WebhookDelivery`, `PanelComment`.
- **Transformations.** `OpenApiOrder` (key order of JSON trees) and `QueueDigest` (the maintainer's queue).

`Arith`, `Decimal`, `Instants`, `Lexicographic`, `Options`, `Sequences`, `Sorting` and `Text` are shared helpers;
`JsonPrinter` shows that the assumption about JSON printing can be met.

Run `dafny verify dfyconfig.toml` in this directory.

## What the proofs found

The models follow the code. In these places a claim one would expect, or a comment in the source, is not what the
code does; each has a lemma with the exact condition or with an input.

- A comment at `src/github/webhook.ts:40-43` says that success overwrites the stored payload hash. The conflict
  branch at `src/db/repositories.ts:3618-3625` never writes that column. The status test still stops a processed
  delivery, but a second payload under a queued id is enqueued on each of its deliveries
  (`WebhookDelivery.OtherPayloadRepeats`). `WebhookDelivery.EnqueueBalance` is the exact account of all enqueues, and
  `WebhookDelivery.EnqueueBound` says when they stay within one plus the failures of processing.
- After a failed enqueue the next redelivery is answered "duplicate" if an older message of the same id finished
  processing in between, and only then (`WebhookDelivery.RedeliveryAfterFailure`);
  `WebhookDelivery.FailedEnqueueThenDuplicate` is such a run, with one payload.
- One window length lets at most `2 * limit - 1` requests through, one less than two limits, and a burst reaches it.
- The unique index on repository and issue (`src/db/schema.ts:404`) can make a bounty import throw after some rows
  are written and before any event is. The log is then no chain (`BountyLog.AbortedImportBreaksChain`). It stays one
  exactly when no bounty of the snapshot meets its issue under another id, or the rows before the first that does
  change no status (`BountyLog.ImportKeepsChains`).
- The panel search reads 300 comments. A panel created behind them is never found again, so each later upsert adds
  another; fewer than 300 comments at creation is the exact condition (`PanelComment.OnePanelForever`).
- A longer retention window can lose an actor counted as "unknown" (`UsageRetention.UnknownCanShrink`).
- JavaScript lists integer-like keys first and in ascending order, so a new response code "200" goes before a "404"
  the document already has. Key order is kept at every level exactly when no new index precedes a shared key
  (`OpenApiOrder.KeysKeepOrder`); for all other keys it is always kept.
- `TextDecoder` drops a byte order mark, so text that starts with one does not survive the base64url round trip. A
  state text starts with a brace and does. An empty Cookie header reads as a nameless cookie with an empty value.
- The batch loop of the pruning ends exactly when the batch size is positive, the cap is not, or a negative batch size,
  which is no limit, reaches the cap at once (`Retention.LoopEnds`).
- `localeCompare` may tie on strings that differ, and events of one instant are read in any order. A list of a rollup
  depends on the reading exactly when two values of equal count that the collation ties are first seen at one instant
  and come before the cut (`UsageReadings.ListsAgree`); `UsageReadings.TiedListsDiffer` is such an input. A good status
  therefore means equality with the recomputation from some reading of the raw events, and with every recomputation
  where no such values occur.
- The row limit of the audit page counts rows whose key does not parse. The page and its `hasMore` are exact exactly when
  more items were read than the page holds or none was left unread (`TargetKeys.PageIsExact`); on the rows of
  `TargetKeys.CrowdedPageIsEmpty` the page is empty although a row matches.

## Model

| member | source | states |
|---|---|---|
| UsageLedger.GoodStatusIsTrue | src/db/repositories.ts:1871-1932 | In every run of appends, rollups and prunes, a ready or partial status means each event day of the lookback has a stored rollup equal to a recomputation from a reading of the current raw events, and to every recomputation where the order of reading cannot matter; its surface, outcome and event lists each sum to the raw count. |
| UsageLedger.LookbackLength | src/db/repositories.ts:1877 | A lookback from 1 to 31 days is kept, a smaller one is 1 and a larger one 31. |
| UsageLedger.SinceIsLookback | src/db/repositories.ts:1878 | The first day asked for is the one of that many days up to today. |
| Instants.DayMeans | src/db/repositories.ts:4985-4988 | An instant lies in the day whose 86 400 seconds hold it. |
| UsageLedger.RunKeepsInv | src/db/repositories.ts:4500-4594 | Every reachable state keeps: stored rollups are what was written for the events of their time, and no event counted in a day out of the prune's reach is gone. |
| UsageLedger.NextKeepsInv | src/db/repositories.ts:1545-1607 | One append, rollup or prune keeps that invariant. |
| UsageLedger.LookbackIsProtected | src/db/retention.ts:17 | No prune of 180 days ever reaches a day of a lookback of at most 31 days. |
| UsageLedger.SameCountSameEvents | src/db/repositories.ts:1895-1901 | For a day no prune has reached, equal counts imply the same events, so comparing counts is enough. |
| UsageLedger.FreshRollups | src/db/repositories.ts:1908-1918 | Conversely, right after the whole lookback was rolled up under the scan limit the status is partial, or empty without events: never stale or incomplete. |
| UsageLedger.LookbackIsFetched | src/db/repositories.ts:1880 | The row limit of the status query reaches every stored day of the lookback. |
| UsageLedger.SummaryUnique | src/db/repositories.ts:4603-4650 | Where the order of reading cannot matter, a rollup holds the figures of any reading. |
| UsageFigures.FiguresAgree | src/db/repositories.ts:4603-4650 | All readings of the events give the same figures exactly when, in every dimension, values that nothing decides between come after the cut. |
| UsageFigures.FiguresMean | src/db/repositories.ts:4614-4636 | The figures are the numbers of distinct actors, sessions and repositories, the outermost instants, and the first entries of a ranking for each dimension. |
| UsageFigures.ComputeFigures | src/db/repositories.ts:4613-4636 | The sets, time stamps and seven counting loops compute the figures of the rows. |
| UsageReadings.ListsAgree | src/db/repositories.ts:4932-4942 | All time-ordered readings of the events give one list exactly when no two values of equal count, tied by the collation and first seen at one instant, reach the cut. |
| UsageReadings.RankingsAgree | src/db/repositories.ts:4932-4942 | They give one full ranking exactly when there are no two such values. |
| UsageReadings.TiedListsDiffer | src/db/repositories.ts:4510-4516 | Two tied commands of one instant: the two readings give two lists. |
| UsageReadings.FirstKeysInOrder | src/db/repositories.ts:4933-4937 | The Map lists its keys in the order of their first occurrence. |
| UsageReadings.RankedIsStable | src/db/repositories.ts:4938-4941 | In a ranking, tied values stand in the order of their first occurrence. |
| UsageLedger.SummarySums | src/db/repositories.ts:4630-4632 | The three uncut lists of a record account for every event. |
| UsageLedger.WholeDayOrCapped | src/db/repositories.ts:4504-4516 | The scan of at most 5001 rows and the separate count agree on whether a day is complete, and the rows kept are the first 5000 of a reading. |
| UsageLedger.BuildRecord | src/db/repositories.ts:4603-4650 | A record holds the count, the figures of its rows, and the status incomplete, partial or complete. |
| UsageLedger.UsageDb.SelectDay | src/db/repositories.ts:4509-4514 | The query returns the first rows, at most 5001, of some reading of the day. |
| UsageLedger.UsageDb.UpsertProductUsageDailyRollup | src/db/repositories.ts:4500-4594 | Writes the record of one day, made from a reading of its events, and changes nothing else. |
| UsageLedger.WrittenMeans | src/db/repositories.ts:4500-4650 | Such a record counts the events of its day, holds the figures of at most 5000 of them, and is incomplete beyond 5000, partial on the current day and complete otherwise. |
| UsageLedger.UsageDb.RollupProductUsageDaily | src/db/repositories.ts:1843-1852 | Writes exactly the named day, or the last days up to today, as of now, keeps the invariant and returns the status report. |
| UsageLedger.RequestedMeans | src/db/repositories.ts:4975-4983 | The days rolled up are the last count days, the named day, or today for a text that is no day. |
| UsageLedger.UsageDb.RecordProductUsageEvent | src/db/repositories.ts:1545-1607 | Adds one event; a step of the state machine. |
| UsageLedger.PruneStepIsPrune | src/db/retention.ts:17 | What the retention job does to the event table, under the rule of its policy, is a prune of the ledger. |
| UsageLedger.EventRule | src/db/retention.ts:17 | The rule is the one for usage events, on their time, of 180 days. |
| UsageLedger.UsageDb.PruneExpired | src/db/retention.ts:64-75 | The batch loop over the event table is a step of the state machine, and reports the exact number of events lost. |
| UsageLedger.UsageDb.GetProductUsageRollupStatus | src/db/repositories.ts:1871-1932 | The query, the grouped counts and the filtered lists yield the specified status, and each list holds exactly the bad days of its kind, in order. |
| UsageLedger.ReportMeans | src/db/repositories.ts:1890-1918 | Which days a report lists as missing, incomplete and stale, said of the events and stored rows of the lookback. |
| UsageLedger.StatusMeans | src/db/repositories.ts:1920-1932 | The status of a report in terms of its lists: empty, stale, incomplete, partial, in this order, or ready. |
| UsageLedger.FetchedAreRead | src/db/repositories.ts:1880-1881 | The rows read are the stored rows from the first day of the lookback on that have at most as many later rows as the lookback has days. |
| UsageLedger.Judge | src/db/repositories.ts:1890-1920 | The lists collected from the read rows are the missing, incomplete and stale days, and the chain of questions about them gives the status. |
| UsageLedger.UsageDb.ListRollupDays | src/db/repositories.ts:1854-1869 | Newest first, the rows of the lookback that have fewer than the limit later ones. |
| UsageDimensions.CountDimensions | src/db/repositories.ts:4932-4942 | The counting loop and the stable sort compute the ranking of the values in their order, cut at the limit. |
| UsageDimensions.DimensionsMean | src/db/repositories.ts:4630-4636 | Which field of an event each of the seven dimensions counts, empty ones left out. |
| UsageDimensions.NamesMean | src/types.ts:1392-1394 | The six surfaces and the six outcomes have the names of the source, all different. |
| UsageDimensions.RouteClassesMean | src/db/repositories.ts:4944-4956 | Every route class, by the prefix or the path it stands for. |
| UsageDimensions.OtherRoutesAreApi | src/db/repositories.ts:4944-4956 | Any other route is of the class "api". |
| UsageDimensions.RankedIsRanking | src/db/repositories.ts:4932-4942 | A ranking lists every non-empty value once with its number of occurrences, none behind one that the comparator puts after it. |
| UsageDimensions.RankingSums | src/db/repositories.ts:4932-4942 | A full ranking sums to the number of events that have a value. |
| UsageDimensions.RankingOfRows | src/db/repositories.ts:4630-4636 | Over distinct rows the counts are the numbers of events that have the value. |
| UsageRetention.LongerWindowRetainsMore | src/db/repositories.ts:4699-4745 | Retained actors of a shorter window never exceed those of a longer one, overall, per surface and per role but "unknown", and never the active ones. |
| UsageRetention.BuildRetentionRollups | src/db/repositories.ts:4699-4716 | Returns the windows of 7 and 30 days over the role buckets of the current events. |
| UsageRetention.WindowMeans | src/db/repositories.ts:4699-4716 | A window of n days counts the current actors, and those of them seen from n days before the day on. |
| UsageRetention.SurfaceEntryMeans | src/db/repositories.ts:4733-4745 | The entry of a surface counts the actors of its own events only. |
| UsageRetention.RoleEntryMeans | src/db/repositories.ts:4718-4731 | The entry of a role counts the actors of its bucket, and of the earlier events that have the role. |
| UsageRetention.RolesByActor | src/db/repositories.ts:4755-4771 | The Map-filling loop collects exactly the known roles of every actor. |
| UsageRetention.NamedRolesMean | src/db/repositories.ts:4779-4786 | An event that names roles has exactly those: its own unless unknown, and those of its metadata. |
| UsageRetention.InferredRoleMeans | src/db/repositories.ts:4788-4804 | Any other event has the one role its name or surface stands for. |
| UsageRetention.EventRolesMean | src/db/repositories.ts:4773-4777 | Only an event that is nothing but unknown takes roles over, and then all known ones of its actor. |
| UsageRetention.RoleBuckets | src/db/repositories.ts:4671-4684 | The nested loops put every event under each of its roles, and list the buckets by size, then role order. |
| UsageRetention.BucketOrderMeans | src/db/repositories.ts:4681-4683 | Larger buckets come first, equal ones in the order miner, maintainer, owner, operator, contributor, unknown. |
| UsageRetention.RoleBucketsUnique | src/db/repositories.ts:4671-4684 | The events determine the list of buckets. |
| UsageRetention.RolesKept | src/db/repositories.ts:4773-4777 | With more events an event keeps every role it had but "unknown". |
| UsageRetention.UnknownActors | src/db/repositories.ts:4773-4804 | An actor counts as unknown exactly when an event names "unknown" beside another role, or it has unlabelled events and no known role. |
| UsageRetention.UnknownLost | src/db/repositories.ts:4773-4777 | Exactly when a longer window loses an unknown actor. |
| UsageRetention.UnknownCanShrink | src/db/repositories.ts:5008-5011 | Two events for which the count of 30 days is below the one of 7 days. |
| Retention.Database.PruneTable | src/db/retention.ts:64-75 | The batch loop ends, removes only expired rows, and reports min(expired, batch * max(1, ceil(cap / batch))), or what its only statement removes when the batch size is not positive. |
| Retention.Database.PruneExpiredRecords | src/db/retention.ts:42-79 | Each rule in turn is counted (dry run) or pruned, up to the first rule with an unsafe name, a missing table or a missing column, which throws, or with a loop that never ends. |
| Retention.Database.RunRule | src/db/retention.ts:54-75 | One rule counts or prunes its table and reports how many rows. |
| Retention.StepMeans | src/db/retention.ts:52-75 | A dry run reports the number of old rows and changes nothing; any other removes as many old rows as it reports, and leaves one only at the cap. |
| Retention.RefusalMeans | src/db/retention.ts:54-56 | When a rule yields no result, and in which order: a name of other characters, an unknown table or column, or a loop that never ends. |
| Retention.OptionsMean | src/db/retention.ts:46-50 | Given options are used; the defaults are the policy, batches of 1000 and a cap of 50000. |
| Retention.Database.DeleteBatch | src/db/retention.ts:67-69 | One statement removes up to a batch of expired rows, whichever the engine picks. |
| Retention.StatementReached | src/db/retention.ts:71-73 | Where the loop stands after one more statement: full batches below the cap, or the exact total. |
| Retention.PolicyRun | src/db/retention.ts:53-76 | Over a policy that names each table once, every table loses expired rows up to the quota and reports how many; other tables are untouched. |
| Retention.DefaultPolicyIsDistinct | src/db/retention.ts:14-22 | The default policy names each table once. |
| Retention.DefaultRunMeans | src/db/retention.ts:14-22 | A run of the default policy removes, of each of the seven tables, exactly rows older than its stated number of days, 50000 at most, and keeps an old row only when that many went. |
| Retention.RunsDrain | src/db/retention.ts:58-76 | The reports of n runs at a fixed time sum to min(first dry-run count, n quotas), which is what the table loses, and it is drained exactly from ceil(count / quota) runs on. |
| Retention.LoopEnds | src/db/retention.ts:66-73 | The loop ends exactly when the batch size is positive, the cap is not, or one unlimited statement reaches the cap. |
| OpenSync.OpenExactly | src/db/repositories.ts:289-378 | Over any interleaving, an item is open exactly when its latest upsert reported it open and no later sweep of its repository had a greater mark. |
| OpenSync.ScanReconciles | src/db/repositories.ts:2568-2576 | After a full scan and its sweep exactly the scanned items are open. |
| OpenSync.SweepCloses | src/db/repositories.ts:2618-2628 | A sweep closes exactly the unseen open rows. |
| OpenSync.OpenTable.MarkUnseenClosed | src/db/repositories.ts:2568-2576 | The return value is the drop in open rows; other repositories are untouched. |
| OpenSync.OpenTable.Upsert | src/db/repositories.ts:341-378 | Writes the row of the key, with a seen time only when open. |
| StatMerge.MergeContributorRepoStats | src/db/repositories.ts:4099-4122 | The Map loop and the sort compute the merge. |
| StatMerge.MergeByRepo | src/db/repositories.ts:4099-4121 | One record per case-folded name that occurs; its six counts are the maxima of its group, its activity the latest non-empty one, and a lone record is unchanged. |
| StatMerge.MergedNamesDiffer | src/db/repositories.ts:4099-4104 | No two merged records share a case-folded name, and every input name has one. |
| StatMerge.LabelsOfNext | src/db/repositories.ts:4106-4119 | Labels of a group are the first ones of the labels so far and of the next record. |
| StatMerge.OrderIndependent | src/db/repositories.ts:4099-4122 | Names and figures do not depend on the order of the input. |
| StatMerge.MergeTwice | src/db/repositories.ts:4121 | Merging a merged list changes nothing, not even labels, names or order. |
| StatMerge.LatestIsoIsLatest | src/db/repositories.ts:4133-4135 | Filter, sort and last give the greatest non-empty value. |
| TargetKeys.RangeIsPrefix | src/db/repositories.ts:1990-1994 | The half-open range from `repo#` to `repo$` holds exactly the strings that start with `repo#`. |
| TargetKeys.ParseFormat | src/db/repositories.ts:2171-2179 | Parsing undoes formatting for every name with a slash and every positive number, and refuses the others. |
| TargetKeys.ParseExactly | src/db/repositories.ts:2171-2179 | A key parses exactly when its last `#` separates a name with a slash from a positive number. |
| TargetKeys.RangeMeansRepository | src/db/repositories.ts:1990-1994 | A key that parses names the repository exactly when it lies in its range and its name has no `#`. |
| TargetKeys.ItemsInScope | src/db/repositories.ts:2011-2023 | Every item comes from a matching row and belongs to one of the caller's repositories unless its stored name has a `#`. |
| TargetKeys.AllItemsMean | src/db/repositories.ts:1986-2023 | An item is listed exactly for a row of the skip event whose reason, time, repository and key meet the question, each stated on the fields. |
| TargetKeys.LimitMeans | src/db/repositories.ts:1982 | No limit means 50, one from 1 to 100 is kept, others are cut to that range; the page never exceeds it. |
| TargetKeys.ReadMeans | src/db/repositories.ts:1999-2010 | The rows read are the newest five times the limit plus 20, at most 500. |
| TargetKeys.PageIsExact | src/db/repositories.ts:1999-2024 | The page and `hasMore` are those of all matching rows exactly when more items were read than the page holds, or none was left unread. |
| TargetKeys.PageIsNewest | src/db/repositories.ts:1999-2024 | So they are whenever the matching keys parse, in spite of the row limit. |
| TargetKeys.CrowdedPageIsEmpty | src/db/repositories.ts:1999-2024 | Rows without a key fill the row limit: the page is empty and says there is no more, though an older row matches. |
| TargetKeys.NewestFirst | src/db/repositories.ts:2009 | Rows come newest first, ties by id. |
| BountyLog.BountyStore.Import | src/api/routes.ts:3103-3124 | Rows are written one by one up to the first that throws; events are stored only when none does. |
| BountyLog.BountyStore.UpsertBounty | src/db/repositories.ts:3003-3029 | Inserts or replaces the row by id, or throws when another id holds its repository and issue. |
| BountyLog.AbortsAt | src/api/routes.ts:3107-3109 | An import throws at the first bounty whose issue another id holds, with the rows before it written. |
| BountyLog.WithoutClash | src/api/routes.ts:3107-3121 | Without such a bounty it completes, and every id has its latest row. |
| BountyLog.TakeKeepsIssuesUnique | src/db/schema.ts:404 | No import stores two bounties on one issue. |
| BountyLog.ImportKeepsChains | src/api/routes.ts:3103-3124 | An import keeps every bounty's events a chain to its stored status exactly when no bounty of the snapshot clashes, or the rows before the first clash change no status. |
| BountyLog.ImportsChain | src/api/routes.ts:3103-3124 | From an empty database, repeated ids included, the chains hold after every import exactly when each import meets that condition. |
| BountyLog.ConsistentImportsChain | src/api/routes.ts:3103-3124 | When ids and issues determine each other, no import throws and the chains hold for every sequence of imports. |
| BountyLog.ChainLinks | src/api/routes.ts:3110-3119 | A chain is: no previous status first, then each the predecessor's status, neighbours different, the last the stored one. |
| BountyLog.AbortedImportBreaksChain | src/db/schema.ts:404 | Two bounties on one issue leave a stored status without an event. |
| LocalWriteTools.SqIsLiteral | src/mcp/local-write-tools.ts:23-25 | The shell reads a quoted string as exactly that string, for every string and in every context between tokens. |
| LocalWriteTools.OpenPrReads | src/mcp/local-write-tools.ts:32-36 | The command reads as gh, pr, create, `--repo`, `--base`, `--head`, `--title` and `--body`, each with the value of its name in `inputs`, and `--draft` exactly for a draft, for all strings; `inputs` carries the parameters. |
| LocalWriteTools.TemplatesAreIntended | src/mcp/local-write-tools.ts:32-70 | For every tool, the tokens of the templates are those written out from the inputs. |
| LocalWriteTools.FlaggedAt | src/mcp/local-write-tools.ts:41 | Each label has its own `--label`, in order. |
| LocalWriteTools.FileIssueReads | src/mcp/local-write-tools.ts:39-44 | The command reads as its words written out from `inputs`, which carries the parameters, for any number of labels or none given. |
| LocalWriteTools.ApplyLabelsReads | src/mcp/local-write-tools.ts:47-51 | The same, with one `--add-label` for each label. |
| LocalWriteTools.PostEligibilityCommentReads | src/mcp/local-write-tools.ts:54-57 | The same for the number, repository and body. |
| LocalWriteTools.CreateBranchReads | src/mcp/local-write-tools.ts:60-63 | The same, with the start point only when it is given and not empty. |
| LocalWriteTools.DeleteBranchReads | src/mcp/local-write-tools.ts:66-70 | The same; only here, and only for a remote branch, one operator `&&` appears between two commands. |
| Base64Url.BytesToBase64Url | src/auth/github-oauth.ts:270-274 | The loop, `btoa` and the replacements compute the base64url text of the bytes. |
| Base64Url.EncodingIsUnpadded | src/auth/github-oauth.ts:259-274 | The text is the unpadded encoding over letters, digits, `-` and `_`. |
| Base64Url.AlphabetMeans | src/auth/github-oauth.ts:270-274 | The characters of the 64 values, as in section 4 of RFC 4648. |
| Base64Url.QuartetMeans | src/auth/github-oauth.ts:270-274 | Four characters carry the bits of three bytes, highest first. |
| Base64Url.RepadRestores | src/auth/github-oauth.ts:263-264 | Re-padding restores exactly the padding that was stripped. |
| Base64Url.DecodeEncode | src/auth/github-oauth.ts:259-268 | Decoding returns the encoded bytes, for every byte sequence. |
| Base64Url.SpaceIsDropped | src/auth/github-oauth.ts:259-268 | ASCII white space makes no difference to the decoder. |
| Base64Url.DecodableExactly | src/auth/github-oauth.ts:259-268 | It fails exactly on a character out of the alphabet or on one character left over. |
| Utf8.TextRoundTrip | src/auth/github-oauth.ts:259-268 | Text survives encoder and decoder exactly when it does not start with a byte order mark. |
| Utf8.DecodeOneSound | src/auth/github-oauth.ts:259-268 | A character is only ever decoded from its own encoding. |
| OAuthState.TextSurvives | src/auth/github-oauth.ts:259-268 | The same through base64url. |
| OAuthState.VerifySigned | src/auth/github-oauth.ts:222-246 | A signed state verifies under its secret exactly until it expires, and gives back nonce and expiry. |
| OAuthState.AcceptedExactly | src/auth/github-oauth.ts:228-246 | A payload is given back exactly when the secret is set, the second field has the digest of the signature of the first, and the first says a payload that has not expired. |
| OAuthState.OnlyOwnSignature | src/auth/github-oauth.ts:232 | Where no other text has its digest, an accepted state carries the signature of its encoding. |
| OAuthState.NoSignature | src/auth/github-oauth.ts:229-230 | Without a second field a state is refused. |
| OAuthState.EncodingHasNoDot | src/auth/github-oauth.ts:225 | No encoding holds the separator, and only the empty input encodes to nothing. |
| OAuthState.TrailingFieldsIgnored | src/auth/github-oauth.ts:229 | Fields after the second are not looked at. |
| Security.TimingSafeEqual | src/auth/security.ts:84-91 | The accumulating loop decides equality of the two digests. |
| Cookies.PercentRoundTrip | src/auth/security.ts:31 | `decodeURIComponent` undoes `encodeURIComponent` for every string. |
| Cookies.DecodesExactly | src/auth/security.ts:31 | A value decodes to a text exactly when the bytes it stands for, escaped or plain, are the UTF-8 encoding of that text; it fails on all others. |
| Cookies.EscapeReads | src/auth/security.ts:31 | An escape is a percent sign and two hexadecimal digits of either case. |
| Cookies.EscapeMeans | src/auth/security.ts:149 | Which characters stand for themselves; each byte of any other is a percent sign and two upper-case hexadecimal digits. |
| Cookies.ExtractCookieValue | src/auth/security.ts:25-38 | The loop with early return is the lookup of the first piece with that key. |
| Cookies.FirstPieceDecides | src/auth/security.ts:27-36 | The first piece with the key decides, even when its value does not decode. |
| Cookies.SerializeCookie | src/auth/security.ts:147-157 | The pushed parts are the pair and the attributes, joined. |
| Cookies.AttributesMean | src/auth/security.ts:147-157 | The attributes and their order. |
| Cookies.JarRoundTrip | src/auth/security.ts:25-38 | For any jar of distinct names, extraction returns the stored value or nothing, the one exception being the empty name in an empty jar. |
| Cookies.ValueInJar | src/auth/security.ts:25-38 | What is stored under a name is the value of its one cookie, and nothing for an absent name. |
| Cookies.KeptIsPair | src/auth/security.ts:147-157 | A browser keeps exactly the name-value pair of a sent cookie. |
| RateLimiter.RateLimiter.Fetch | src/auth/rate-limit.ts:32-54 | Refuses an incomplete request, and otherwise counts it in the current or a new bucket of its key, whose count decides the answer: allowed, remaining, reset and wait. |
| RateLimiter.LimitIsReached | src/auth/rate-limit.ts:41-51 | Of n requests at one instant exactly the first limit are answered as allowed. |
| RateLimiter.RetryAfterGiven | src/auth/rate-limit.ts:45-51 | A wait is told exactly when the answer is not allowed. |
| RateLimiter.RemainingIsExact | src/auth/rate-limit.ts:44 | After any history, a k-th further request at the same instant is allowed exactly when k is at most the remaining number told. |
| RateLimiter.ResetAtIsExact | src/auth/rate-limit.ts:37-41 | The next request opens a new bucket exactly from the told reset on, which is at most a window ahead. |
| RateLimiter.ClassBounds | src/auth/rate-limit.ts:21-25 | The three route classes let at most 19, 239 and 39 requests through per window length. |
| RateLimiter.BucketBound | src/auth/rate-limit.ts:41-42 | No bucket has more than limit requests answered as allowed, in any history. |
| RateLimiter.IntervalBound | src/auth/rate-limit.ts:32-54 | Any stretch of time lets at most limit - 1 + limit * ceil(length / window) through. |
| RateLimiter.WindowBound | src/auth/rate-limit.ts:32-54 | One window length lets at most 2 * limit - 1 through. |
| RateLimiter.WindowBoundReached | src/auth/rate-limit.ts:32-54 | A history that reaches that bound. |
| RateLimiter.RetryAfterIsLeast | src/auth/rate-limit.ts:45-51 | A denied caller that waits k seconds alone is let through exactly when k is at least the seconds it was told. |
| TokenCache.InstallationTokens.CreateInstallationToken | src/github/app.ts:49-66 | One call serves the cached token, mints one or fails, and changes its own entry only. |
| TokenCache.ServedTokenIsFresh | src/github/app.ts:50-52 | A token served from the cache is a known one with more than 120 s left. |
| TokenCache.MintBound | src/github/app.ts:46-66 | With lifetimes of at least L, a run over a span T mints at most 1 + T / (L - 120 s) tokens. |
| TokenCache.MintBoundReached | src/github/app.ts:46-66 | Runs of every length that reach that bound. |
| WebhookDelivery.WebhookEvents.HandleGitHubWebhook | src/github/webhook.ts:8-82 | Each refusal is given exactly on its own condition and changes nothing; any other delivery is deduplicated, or recorded and enqueued; other rows are untouched. |
| WebhookDelivery.RejectionMeans | src/github/webhook.ts:8-37 | Each refusal has its own condition and comes after those before it; a well-formed request is not refused. |
| WebhookDelivery.WebhookEvents.RecordWebhookEvent | src/db/repositories.ts:3590-3626 | Inserts the row, or updates status and a given error text, never the hash. |
| WebhookDelivery.WebhookEvents.FinishProcessing | src/queue/processors.ts:1408-1429 | Moves the row to processed or to error. |
| WebhookDelivery.ReadBodyWithLimit | src/github/webhook.ts:91-108 | Gives up exactly on bodies over the limit, and otherwise returns the text of the whole body, however it was cut into chunks. |
| Utf8Stream.FeedAllMeans | src/github/webhook.ts:104 | Decoding byte by byte with a pending character means the same as decoding the whole, from every state. |
| Utf8Stream.WholeDecoded | src/github/webhook.ts:95-107 | The texts of the chunks and of the final call add up to the decoding of all bytes. |
| WebhookDelivery.EnqueueBalance | src/github/webhook.ts:38-81 | Over all runs, enqueues, recoveries, a pending enqueue and a failure before any delivery add up to one plus the moves to error by processing plus the deliveries of another payload past a queued row. |
| WebhookDelivery.EnqueueBound | src/github/webhook.ts:38-81 | So enqueues are at most that sum, and at most one plus the moves to error exactly when the other payloads are made up for. |
| WebhookDelivery.OnePayloadBound | src/github/webhook.ts:38-81 | With one payload, enqueues, recoveries and a pending enqueue are exactly one plus the moves to error. |
| WebhookDelivery.OtherPayloadRepeats | src/db/repositories.ts:3618-3625 | A second payload under a queued id is enqueued each time. |
| WebhookDelivery.ProcessedStaysOut | src/github/webhook.ts:44-46 | Between a processed row and a later enqueue there is a processing failure. |
| WebhookDelivery.FailedEnqueueThenDuplicate | src/github/webhook.ts:44-79 | A run with one payload in which the redelivery after a failed enqueue is answered "duplicate". |
| WebhookDelivery.RedeliveryAfterFailure | src/github/webhook.ts:64-79 | After a failed enqueue the next redelivery is "duplicate" exactly when an older message was processed meanwhile and nothing failed after it. |
| PanelComment.Thread.FindPanel | src/github/comments.ts:56-70 | The page loop is a linear search of the first 300 comments. |
| PanelComment.FoundMeans | src/github/comments.ts:56-70 | The panel found is the first of the first 300 comments. |
| PanelComment.PanelMeans | src/github/comments.ts:90-96 | A panel is a comment of the bot, whatever the case of its login, whose body contains one of the three markers. |
| PanelComment.RepositoryMeans | src/github/comments.ts:51-52 | A name with an empty part or without a slash is refused. |
| PanelComment.Thread.CreateOrUpdate | src/github/comments.ts:42-88 | Edits the found panel, or appends one if asked to, and changes nothing else. |
| PanelComment.PageSearch | src/github/comments.ts:58-70 | A page holds a panel exactly when the linear search ends in it or before. |
| PanelComment.PanelStaysOnly | src/github/comments.ts:42-88 | A panel within reach stays the only one over every continuation. |
| PanelComment.OutOfReachAdds | src/github/comments.ts:58-70 | With every panel out of reach, an upsert adds one more. |
| PanelComment.OnePanelForever | src/github/comments.ts:56-96 | One panel forever exactly when the thread had fewer than 300 comments at creation. |
| OpenApiOrder.PreserveExistingObjectOrder | scripts/write-ui-openapi.ts:38-51 | The recursion and its two loops compute the reordering. |
| OpenApiOrder.ReorderKeepsMeaning | scripts/write-ui-openapi.ts:38-51 | The reordered document equals the new one up to key order at every level. |
| OpenApiOrder.ReorderedIsPlain | scripts/write-ui-openapi.ts:42-50 | The result lists each key once, in the order JavaScript keeps. |
| OpenApiOrder.NamesKeepOrder | scripts/write-ui-openapi.ts:44-49 | At every level, keys that are no indices: shared ones in the current order, then new ones in the new order. |
| OpenApiOrder.KeysKeepOrder | scripts/write-ui-openapi.ts:44-49 | All keys keep that order at every level exactly when no new index precedes a shared key anywhere. |
| OpenApiOrder.IndexMeans | scripts/write-ui-openapi.ts:47-49 | A printed number is an index exactly below 2^32 - 1. |
| OpenApiOrder.NewIndexOvertakes | scripts/write-ui-openapi.ts:47-49 | Two response codes whose order is not kept. |
| OpenApiOrder.FixedIffSameMeaning | scripts/write-ui-openapi.ts:38-51 | Reordering against a document gives back that document exactly when it equals the new one up to key order. |
| OpenApiOrder.ReorderAgain | scripts/write-ui-openapi.ts:38-51 | Reordering against its own output changes nothing. |
| OpenApiOrder.CheckPassesIff | scripts/write-ui-openapi.ts:14-24 | The check passes exactly on files that print a document equal to the specification up to key order. |
| OpenApiOrder.CheckAfterWrite | scripts/write-ui-openapi.ts:14-28 | A check right after a write passes, whatever the file held. |
| JsonPrinter.LawfulExists | scripts/write-ui-openapi.ts:19 | Printing and parsing can be inverses on all documents, as the two results above assume. |
| QueueDigest.SplitIsPartition | src/github/commands.ts:1225-1236 | The two lists together hold every open request once, and none is on both. |
| QueueDigest.ReviewIsTheRest | src/github/commands.ts:1234-1236 | The extra conditions of the review filter never drop a request. |
| QueueDigest.DigestLists | src/github/commands.ts:1232-1237 | Each list is the only sorted arrangement of the requests it is for. |
| QueueDigest.DigestMeans | src/github/commands.ts:1232-1237 | Which summaries each of the three lists holds. |
| QueueDigest.ReviewOrderMeans | src/github/commands.ts:1329-1331 | A confirmed miner comes first, then more linked issues, then the older, then the lower number. |
| QueueDigest.AuthorOrderMeans | src/github/commands.ts:1333-1335 | A higher rank comes first, then the older, then the lower number. |
| QueueDigest.OrderIndependent | src/github/commands.ts:1227-1237 | The digest does not depend on the input order. |
| QueueDigest.SignalsMean | src/github/commands.ts:1285-1302 | Each of the seven signals says of the request what its name says. |
| QueueDigest.NeedsAuthorMeans | src/github/commands.ts:1285-1327 | What makes a request need its author, in terms of the request. |
| QueueDigest.AgeMeans | src/github/commands.ts:1366-1371 | The age is the number of whole days since the last update, zero for unreadable and future ones. |
| QueueDigest.ConfirmedMeans | src/github/commands.ts:1292 | A miner is confirmed exactly when the normalised author is one of the normalised logins. |
| QueueDigest.FailureMeans | src/github/commands.ts:1293 | Which conclusions count as failed checks, and which associations as a maintainer. |
| QueueDigest.DuplicateMeans | src/github/commands.ts:1347-1355 | A request is a duplicate exactly when a cluster holds it beside another pull request or a recent merge. |
| QueueDigest.RankPositive | src/github/commands.ts:1325-1345 | The rank is positive exactly for the requests that need their author. |
| QueueDigest.RankMeans | src/github/commands.ts:1337-1345 | The weights of the five signals. |
| QueueDigest.DuplicatesFirst | src/github/commands.ts:1333-1345 | A duplicate never sorts after a request without that signal, except against one with all four others that is older or lower numbered. |
| Decimal.FormatRoundTrip | src/db/repositories.ts:2176 | Reading the printed form of a natural number gives it back. |

## Left out

- Network and platform calls: the database engine, GitHub, queues and storage appear as table updates and as chosen successes and failures.
- HMAC, SHA-256 and random identifiers are abstract functions or fresh values; nothing is claimed about their strength.
- JSON printing and parsing are abstract inverses; objects with keys of `Object.prototype`, and members with an undefined value, are not modelled.
- `localeCompare` is an abstract order that may tie; strings are sequences of code points, so unpaired surrogates do not occur.
- Concurrent interleaving inside one read-then-write call: each exported operation is one atomic step.
- Timestamps are instants or canonical ISO texts; malformed ones occur only where the source parses them.
- UsageLedger.BuildRecord: does not model the activation funnels, the role list and the retention windows of the record; `UsageRetention` models the windows on their own.
- UsageLedger.UsageDb.UpsertProductUsageDailyRollup: does not model the scan of the previous 30 days that feeds those windows.
- UsageLedger.UsageDb.RecordProductUsageEvent: takes the event after its fields are bounded and redacted and its actor is hashed, so its name is not empty.
- UsageLedger.UsageDb.RollupProductUsageDaily: takes a named day as a day number, or as no date at all; day texts that pass the pattern but name no calendar day are not modelled.
- UsageRetention.BuildRetentionRollups: does not model the order of the surface list, only its content by surface, nor the rounding of rates; events carry the roles their metadata names, normalised.
- Retention.Database.PruneTable: asks that the loop ends on the table, exactly as `Retention.LoopEnds` characterises it, since a method that runs for ever has no result.
- UsageLedger.UsageDb.PruneExpired: the same.
- Retention.Database.PruneExpiredRecords: answers `NeverEnds` for a rule whose loop runs for ever, and does not model the rows such a loop deletes.
- StatMerge.OrderIndependent: says nothing of labels, login and the casing of the kept name, which do depend on the order.
- TargetKeys.ParseFormat: does not cover numbers above 2^53 - 1; other number texts go to an abstract reader.
- TargetKeys.PageIsNewest: takes the repository names as already trimmed and freed of repeats, and an integer limit.
- BountyLog.BountyStore.Import: stores the events in the order they were collected, although the source inserts them together; the snapshot parser is not modelled.
- Cookies.JarRoundTrip: names are not empty and have no separator or outer space, as every token of RFC 6265.
- LocalWriteTools: the descriptions and boundary texts of the specs; the shell reader answers `Expanding` for double quotes and expansions instead of performing them.
- RateLimiter: the choice of key and route class, and the audit record of a denied request; a key keeps one limit and window.
- QueueDigest: collision clusters are an input; reasons, titles, labels and the other reports of the digest are passed over.
- PanelComment: logins are compared by ASCII case; deleted or edited comments of others are not steps.
- The helpers `bytesToHex` and `extractBearerToken`, the IP address checks, badges, the browser extension and the rest of the HTTP routes.
