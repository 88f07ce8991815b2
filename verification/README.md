# Market-data store: verified model

A market-data Store keeps daily price series as sharded, append-only files in a Git repository, and
several programs write to it: an appender, a verified extension, an audited rebase, an admission run, a
recovery run, and the intraday collectors. This project models those programs and proves what they
promise each other.

Five parts, each a group of modules:

- **The sharded series** (`Bars`, `Shards`, `SeriesStore`, `StoreLaws`, `Rebase`, `Replacements`, `Extension`, `Runs`).
  A series is one date-ascending list, cut greedily into documents bounded by a record limit and a byte
  limit, plus an index. The byte size of a document is an arbitrary function and digests are injective
  constructors. A series directory is a class whose `trail` records every durable state between two file
  writes, so that statements about interrupted writes speak of every crash point.
- **Publication and recovery** (`Git`, `PushExact`, `Retention`, `Publishing`, `Candidates`, `Recovery`). The remote is
  shared: between any two commands other writers may push or create tags, an acknowledgement may be lost,
  a push may be delivered late. The only rules are that main moves by fast-forward and that a tag is never
  moved. Each method appends what it does and sees to a log; its contract speaks of that log and of the
  remote's history. A recovery replaces whole series directories, by the rewrite the first part models.
- **Credits** (`Ledger`, `Discipline`). The ledger truncates its minute table; the discipline is an
  automaton over the log of a run that accepts exactly the orders in which every provider request has its
  own earlier durable debit and every push waits for the previous one to be verified. Its labels are
  grounded: a commit counts as verified only directly after tag, HEAD and main were read as it, a debit only
  if the pushed commit charges one credit to its minute, a request only directly after main was read as the
  debit.
- **Intraday stages and metric proofs** (`Coverage`, `StageChain`, `TargetSelection`, `CloseOrder`, `MetricProof`).
  Windows, coverage and the chain open_15m, open_30m, open_60m, close and its retries; the choice of a
  target observation under reordering, in general and on the snapshots the chain publishes; the builder and
  the verifier of a metric proof.
- **Diagnostics** (`ConflictAudit`, `Text`, `JsonPointer`, `LegacyProjection`). Conflict records and the
  auditor that rebuilds rows from them; JSON pointers as RFC 6901 sections 3 and 4 define them, the diff
  and the legacy projection.

## What the proofs found

Eight places where a property one would expect does not hold as stated. Each has a counterexample or the
exact condition in the model.

- An append that is refused because one row exceeds the shard limits may already have rewritten the open
  shard, while the index still describes the old one. The series then no longer reads.
  `StoreLaws.RejectedAppendReadable` gives the exact condition (the open shard took none of the new rows)
  and `StoreLaws.RejectedAppendCanBreakTheSeries` a concrete batch. The same condition decides whether a
  reader still gets the old rows while an append is under way (`StoreLaws.MidAppendReadable`).
- For the Close stage the order of captures can decide whether target selection fails: of two orders of the
  same observations one may be accepted and the other refused (`TargetSelection.CloseOrderCanMatter`, and
  `TargetSelection.CloseOrderExample` with three observations). Orders that are accepted choose the same targets
  (`TargetSelection.CloseSuccessesAgree`), and `TargetSelection.CloseOrderFreeIff` says exactly when the outcome
  is independent of order. On a Close snapshot published in the modelled modes reordering the captures changes
  nothing, because each symbol's Close-window facts come from one of them
  (`StageChain.CloseFactsFromOneCapture`, `CloseOrder.PublishedCloseIsOrderFree`). For Open stages the order never matters
  (`TargetSelection.OpenOrderFree`).
- `json_pointer` followed by `_get_pointer` is not the identity for the document itself nor for a path that
  begins with an empty token and goes on, because every leading slash is stripped
  (`JsonPointer.ParsePrintIff`, `JsonPointer.RootPointerMisses`).
- The diff that guards the legacy projection compares as Python does: it does not see true turned into 1, nor 1
  into 1.0 (`JsonPointer.UnseenChange`; `JsonPointer.UnchangedIff` is the exact statement).
- A conflict record whose new row has an explicit null where the stored row has no such field is rejected by
  the auditor; `ConflictAudit.AcceptedIff` is the exact rule and `ConflictAudit.RejectedRecordExample` a pair of
  such rows. Rows the daily parser delivers never have one (`ConflictAudit.FetchedRowsAreAccepted`).
- Settlement is final only for rows with at least max(1, tail) later rows, and the bound is sharp
  (`Runs.TailIsNotFinal`).
- A rebase can report a stored date as missing although the provider returns it: a stored row dated at or after
  the cutoff, or before the effective date, is never eligible. `Rebase.MissingMeansLostOrIneligible` is the exact
  condition, end to end.
- An interrupted rewrite leaves a directory no reader accepts. This holds after the first unlink of every
  extension and every rebase, and until the index write unless the new shards begin with every old one:
  `Rebase.MidRewriteReadable` is the exact condition, state by state. An extension that adds older rows never
  meets it (`Extension.PrefixExtensionUnreadable`; `Extension.InterruptedExtensionExample` is a concrete one).
  A rebase has the old rows archived in each of these states (`Rebase.RebaseJob.Rebase`); an extension keeps no
  archive. The archive has a price: a rebase whose cut fails leaves it behind, and every later rebase of that
  cutoff is then refused (`Rebase.LeftoverArchiveBlocks`). A directory that no longer reads is a dead end for all
  three writers (`Runs.UnreadableStays`).

## Model

| member | source | states |
|---|---|---|
| Bars.Normalize | scripts/market_data_store.py:100-111 | a row is accepted exactly when it has a date, a numeric close, and no volume that is text or negative; it then keeps exactly its known non-null fields |
| Bars.NormalizeStored | scripts/market_data_store.py:100-111 | normalizing a stored row again returns it unchanged, so history can be re-submitted |
| Bars.SortPermutes | scripts/market_data_store.py:160-190 | sorting a batch by date neither drops nor repeats a row |
| Shards.Packer.PackIsGreedy | scripts/market_data_store.py:270-287 | packing yields the one cut in which every prefix of a shard fits and no shard could take its next row, and fails exactly when there is none |
| Shards.Packer.PackShape | scripts/rebase_market_data_baseline.py:118-144 | packed shards are contiguous, non-empty and within both limits |
| Shards.Packer.PackCarries | scripts/rebase_market_data_baseline.py:118-144 | packed shards carry the rows in order; packing stops early only at a row that fits in no shard |
| Shards.Packer.PackResume | scripts/market_data_store.py:252-287 | continuing the last shard of a complete packing gives the packing of the longer list, and completes exactly when that does |
| Shards.Packer.PackStuck | scripts/market_data_store.py:278-281 | a packing stuck at a row stays stuck there whatever follows |
| SeriesStore.SeriesDir.ReadAll | scripts/market_data_store.py:141-157 | the shard walk returns what the checked reading of index and files says, or its first error |
| SeriesStore.SeriesDir.Fill | scripts/market_data_store.py:257-263 | the filling loop moves exactly the rows the greedy rule lets the open shard take |
| SeriesStore.SeriesDir.CutShards | scripts/market_data_store.py:270-287 | the outer loop writes exactly the shards of the greedy cut, one durable state per shard, and stops at the same row |
| SeriesStore.SeriesDir.WriteShards | scripts/market_data_store.py:249-300 | the write phase leaves the specified files and index, every earlier state still carrying the old index |
| SeriesStore.SeriesDir.MergeBatch | scripts/market_data_store.py:232-244 | the overlap loop selects the rows that are new, or reports the first conflicting or out-of-order row |
| SeriesStore.SeriesDir.Append | scripts/market_data_store.py:160-300 | nothing is written when a check fails or all rows are known; otherwise the disk becomes exactly the planned one, through the listed durable states; `StoreLaws.PlanIff` says what is planned |
| StoreLaws.SelectNewMeaning | scripts/market_data_store.py:232-244 | a batch is accepted if and only if each of its rows is stored unchanged or later than the whole series; the new rows are then the later ones |
| StoreLaws.PrepareIff | scripts/market_data_store.py:160-200 | a batch may enter exactly when session and identity are right, every row normalizes, no date comes twice and none is before the effective date; what enters is those rows in strict date order |
| StoreLaws.PlanIff | scripts/market_data_store.py:160-247 | when an append is refused, does nothing, or writes, said of the raw batch: it writes exactly when the batch may enter, the series is this one and reads, every row is stored unchanged or later, and some row is not stored; the new rows are then exactly the rows not stored, in date order |
| StoreLaws.StoredReads | scripts/market_data_store.py:141-157 | a directory in the stored form reads as the rows of its documents, in strict date order |
| StoreLaws.PlanMeaning | scripts/market_data_store.py:160-247 | an append that reaches the write phase has rows to add, all well-formed and later than the series |
| StoreLaws.AppendStored | scripts/market_data_store.py:249-300 | after a completed append reading returns existing ++ new and the stored form is kept |
| StoreLaws.AppendCanonical | scripts/market_data_store.py:249-300 | an append to a canonical series completes exactly when the whole list can be cut at once, and leaves the canonical form of the whole list: all shards sealed but the last |
| StoreLaws.FirstAppendCanonical | scripts/market_data_store.py:209-300 | the first append is canonical too, whatever stray files a crash left |
| StoreLaws.CanonicalUnique | scripts/market_data_store.py:122-139 | two canonical directories with the same rows have the same index entries and the same shard files |
| StoreLaws.AppendTwice | scripts/market_data_store.py:249-287 | appending A then B succeeds exactly when appending A ++ B does, and leaves the same shards, metadata and sealed flags |
| StoreLaws.SameEntriesSameRows | scripts/market_data_store.py:141-157 | shard digests pin contents: two readable directories with one index hold the same rows |
| StoreLaws.StillStored | scripts/market_data_store.py:141-157 | under the old index a disk that still reads is stored in the very same documents |
| StoreLaws.AppendNeverTorn | scripts/market_data_store.py:160-300 | stop a planned append after any number of writes, the index write included: the next read fails, returns exactly the old rows, or exactly the old and new ones |
| StoreLaws.ApplyReplay | scripts/market_data_store.py:264-287 | repeating a run of shard writes after any part of it gives the same files |
| StoreLaws.RetryAfterCrash | scripts/market_data_store.py:160-300 | if the reader still accepts what a crash left, repeating the append plans the same write and ends in the disk an uninterrupted append leaves |
| StoreLaws.MidAppendReadable | scripts/market_data_store.py:252-268 | the old rows stay readable during an append if and only if the open shard took none of the new rows |
| StoreLaws.RejectedAppendReadable | scripts/market_data_store.py:266-281 | a refused append leaves the old rows readable if and only if the open shard took none of the new rows |
| StoreLaws.RejectedAppendCanBreakTheSeries | scripts/market_data_store.py:266-281 | a concrete refused append after which the series no longer reads |
| Rebase.ValidateReplacement | scripts/rebase_market_data_baseline.py:60-115 | the comparison returns, in date order and once each, exactly the stored rows the replacement changes, each with the replacement row of its day, or the first reason of refusal |
| Rebase.CompareOverlap | scripts/rebase_market_data_baseline.py:79-108 | the loop refuses exactly when some changed row lies outside the allowed dates, else lists the revisions in order |
| Rebase.RevisionsMeaning | scripts/rebase_market_data_baseline.py:79-108 | the revisions pair each changed stored row with its replacement; unchanged rows are not listed |
| Rebase.ValidatedMeaning | scripts/rebase_market_data_baseline.py:60-115 | a replacement is accepted if and only if it has each date once, covers every stored date, keeps every row older than the tail, and revises at most the limit; the answer then lists exactly the changed rows |
| Rebase.RequestCoversHistory | scripts/rebase_market_data_baseline.py:249-273 | for a provider with at most one row a day and none after today, the requested rows include every provider row from the oldest stored date on |
| Rebase.RequestCoversTarget | scripts/rebase_market_data_baseline.py:249-273 | after the cutoff and identity filters the requested rows still hold min(target, all eligible) |
| Rebase.WindowKeeps | scripts/rebase_market_data_baseline.py:416-436 | the kept window holds every eligible row from the oldest stored date on, stays ascending, and meets the target |
| Replacements.WindowExact | scripts/rebase_market_data_baseline.py:416-436 | the kept window holds exactly the answered rows dated before the cutoff and not before the effective date, from the smaller of the oldest stored day and the day of the target-th latest such row on, each as often as it was answered; it fails exactly when no effective date is set and there are fewer than the target |
| Replacements.AnswerMeaning | scripts/rebase_market_data_baseline.py:416-448 | an answer goes ahead exactly when its kept rows are acceptable, said of the answer alone; the window is then those rows and the revisions are exactly the changes |
| Replacements.PlanRebaseMeaning | scripts/rebase_market_data_baseline.py:379-483 | a rebase goes ahead exactly when the target is positive, the cutoff not after today, the request within the limit, the kept rows of the answer acceptable full bars, and no archive of the cutoff there; it writes exactly the kept rows and archives the old ones with the list of changes |
| Replacements.NoSeriesNoRebase | scripts/rebase_market_data_baseline.py:379-397 | without a series that reads and has a row there is no rebase |
| Rebase.MissingMeansLostOrIneligible | scripts/rebase_market_data_baseline.py:398-448 | request, filter and window together find every stored date again if and only if the provider still has it and every stored row is eligible |
| Rebase.BuildShards | scripts/rebase_market_data_baseline.py:118-144 | cutting all shards before the first write gives exactly the greedy cut and its metadata, or fails where it fails |
| Rebase.ReplaceSeries | scripts/rebase_market_data_baseline.py:189-246 | a replacement that cannot be cut touches nothing; otherwise the directory becomes exactly the rewritten one, index last |
| Rebase.RewriteFiles | scripts/rebase_market_data_baseline.py:213-246 | the durable states are exactly: one per unlinked shard, one per written shard, all with the old index, then the index write |
| Rebase.RewrittenCanonical | scripts/rebase_market_data_baseline.py:118-246 | a rewritten series is canonical: the cut an append history of the same rows would have |
| Rebase.RewriteNeverTorn | scripts/rebase_market_data_baseline.py:213-246 | every state of a rewrite before its index write fails to read or reads exactly the old rows |
| Rebase.MidRewriteReadable | scripts/rebase_market_data_baseline.py:213-246 | the k-th state of a rewrite reads if and only if the old shards are all unlinked and the new ones written so far begin with every old one |
| Rebase.RewrittenPartReads | scripts/rebase_market_data_baseline.py:213-246 | over the old index a written part of the new shards reads if and only if the old shards are a prefix of it |
| Rebase.ChangedRewriteUnreadable | scripts/rebase_market_data_baseline.py:213-246 | a rewrite that does not keep every old shard reads nowhere before its index write |
| Rebase.RebaseJob.Rebase | scripts/rebase_market_data_baseline.py:379-483 | every refusal leaves series and archives untouched unless the cut itself fails; in every state the call puts on disk the archive of the old rows, with the list of exactly the changed ones, is there; success leaves the validated window, through exactly the states of a rewrite, and reports the number of changed stored rows |
| Rebase.LeftoverArchiveBlocks | scripts/rebase_market_data_baseline.py:147-186 | with an archive of that cutoff in place every rebase is refused, and one that would have been accepted is refused for the archive |
| Extension.MergeVerified | scripts/initialize_market_data_baseline.py:47-94 | the merge with its counting loop computes the specified result, first error included |
| Extension.ExtensionExact | scripts/initialize_market_data_baseline.py:47-94 | an extension succeeds if and only if the date-distinct answer, restricted to the stored date range, is exactly the stored rows; the result is then the whole sorted answer |
| Extension.TilesShift | scripts/initialize_market_data_baseline.py:35-44 | shifting a tiling shifts the range it tiles |
| Extension.ExtendedTiles | scripts/initialize_market_data_baseline.py:143-171 | the extended lineage tiles all positions once each |
| Extension.WriteExtended | scripts/initialize_market_data_baseline.py:97-181 | the extension writes exactly the rewritten directory through exactly the states of a rewrite, or nothing if a row fits in no shard |
| Extension.PrefixExtensionUnreadable | scripts/initialize_market_data_baseline.py:97-181 | an extension that adds older rows is unreadable in every state before its index write |
| Extension.InterruptedExtensionExample | scripts/initialize_market_data_baseline.py:97-181 | a concrete series, answer and interrupted state that no longer reads |
| Extension.Initialize | scripts/initialize_market_data_baseline.py:184-326 | a missing series is appended whole under the default limits; an unreadable, refused or unneeded extension changes nothing; a needed one leaves the merged rows with the extended lineage, under the limits of the index |
| Runs.OpKeeps | scripts/rebase_market_data_baseline.py:60-246 | one append under any limits, extension or rebase, or one of them refused or interrupted with the series still readable, keeps readability, every date, every settled row, and, where appends record their lineage, its tiling |
| Runs.UnreadableStays | scripts/market_data_store.py:141-157 | once the directory no longer reads, no operation changes it or passes through any state |
| Runs.RunStaysGood | scripts/market_data_store.py:160-300 | every disk of every run, with operations that stop half way and leave a readable series included, reads and is tiled by its lineage where appends record it |
| Runs.SettlementFinality | scripts/rebase_market_data_baseline.py:79-115 | over any run, limits differing or not and operations interrupted or not, no stored date disappears, and a row that once has max(1, tail) later rows is stored unchanged ever after |
| Runs.RunStaysRegular | scripts/rebase_market_data_baseline.py:118-246 | if the appends use one pair of limits, every disk of the run is canonically cut |
| Runs.LayoutIsHistoryFree | scripts/rebase_market_data_baseline.py:118-144 | two runs under one pair of limits that reach the same rows reach the same index entries and shard files |
| Runs.TailIsNotFinal | scripts/rebase_market_data_baseline.py:79-115 | the bound is sharp: a row inside the tail can still be revised |
| Runs.History.Append | scripts/market_data_store.py:160-300 | a changing call is one step of a run, and so is one refused half way if the series still reads; any other adds none; the states it puts on disk are exactly those at which the run may stop |
| Runs.History.Extend | scripts/initialize_market_data_baseline.py:184-326 | an initialization that changes something is one step, an append or an extension, or a refused append; any other call adds none; its durable states are those at which the run may stop |
| Runs.History.Rebase | scripts/rebase_market_data_baseline.py:379-483 | a successful rebase is one step of a run through exactly the states at which it may stop; a refused one is none and writes nothing |
| Git.Repo.Interleave | scripts/push_proof_store_commit.py:94-131 | whatever other writers do between two commands keeps history growing by descent and never moves a tag |
| Git.Repo.Deliver | scripts/push_proof_store_commit.py:105-131 | a sent commit lands, however late, only directly on its parent |
| PushExact.NotYetPublished | scripts/push_proof_store_commit.py:79-112 | while main reads the base, its child cannot have been published |
| PushExact.PushExactly | scripts/push_proof_store_commit.py:51-132 | each push directly follows reads of main equal to base and HEAD equal to candidate, at most `attempts` are made, no other commit is lost, and success means main was read as the candidate; every refusal has the cause it names, in the candidate, in what was last read or in the last acknowledgement, and attempts count as exhausted only after main was asked for at least that often |
| PushExact.Attempt | scripts/push_proof_store_commit.py:94-131 | one attempt makes at most one push, guarded by fresh observations |
| Retention.EnsureRetentionRef | scripts/verify_store_publication.py:127-164 | each tag push directly follows reads of main equal to the commit and of the tag absent, at most three are made, and a normal return means tag, HEAD and main were all read as the commit; a failure has the cause it names in what was last read or answered, and the read-back counts as unconfirmed only after three pushes |
| Retention.TransportMain | scripts/verify_store_publication.py:99-124 | main is asked for at most three times, and no read changes anything |
| Retention.VerifyPublication | scripts/verify_store_publication.py:167-302 | verification pushes nothing but the guarded tag; success means the commit was main, changes only Store paths, its tag is in place, and its manifest names its run and lists blobs that are there; a failure has the cause it names, in the commit or in what was last seen |
| Retention.OutputsMeaning | scripts/verify_store_publication.py:191-229 | outputs are verified exactly when a complete manifest lists them, there is one, no path comes twice, and each path holds its blob in the tree |
| Ledger.TwelveBudget.ConsumeTwelveCredit | scripts/market_data_collectors.py:128-153 | a debit is accepted exactly when day and minute have room; a refused one changes nothing; an accepted one adds to the day total and to one minute and keeps the sixteen latest minutes |
| Ledger.ConsumeMeaning | scripts/market_data_collectors.py:128-153 | a debit is refused exactly when it would exceed the day or the minute limit, the day first; otherwise the total and this minute grow by the amount, and the table keeps exactly the sixteen latest minutes |
| Ledger.Latest16Drops | scripts/market_data_collectors.py:147-148 | truncation keeps a table of sixteen and drops exactly the oldest minute of seventeen |
| Ledger.TruthfulStep | scripts/market_data_collectors.py:128-153 | one accepted debit keeps the table equal to the true totals of the minutes it keeps, and what it forgot older than all of them |
| Ledger.LedgerBounded | scripts/market_data_collectors.py:128-153 | while no debit falls in a forgotten minute: the day total is the exact sum and within the limit, no minute exceeds its limit, and the kept minutes sum to at most the total |
| Ledger.LedgerBoundedByClock | scripts/market_data_collectors.py:128-153 | the same for every run of positive debits whose clock never goes back |
| Discipline.RequestHasOwnDebit | scripts/admit_market_data_baseline.py:392-526 | in an accepted, grounded log every request has its own earlier debit in the same UTC minute, with no other request in between: a pushed commit that charges one credit to that minute, read back from tag, HEAD and main before it counts, and still read as main directly before the request |
| Discipline.RequestsWithinDebits | scripts/admit_market_data_baseline.py:580-623 | requests attempted never exceed recorded debits |
| Discipline.DebitsAreCharged | scripts/admit_market_data_baseline.py:392-623 | requests attempted, recorded debits and the credits by which the last verified ledger exceeds the first: each is at most the next |
| Discipline.PushesAreVerified | scripts/admit_market_data_baseline.py:200-243 | between two pushes of main the first was verified by reading tag, HEAD and main as it, so an unconfirmed push is the last |
| Discipline.PushBuildsOnVerified | scripts/admit_market_data_baseline.py:200-243 | every push is a child of the start or of a commit read back that way |
| Discipline.FirstCharge | scripts/market_data_collectors.py:128-153 | the first charge of a day leaves a ledger of one credit, in its minute |
| Publishing.StorePublisher.AssertCurrent | scripts/admit_market_data_baseline.py:192-198 | a normal return means verified head, HEAD, remote main and working tree agree; a refusal names which of them does not, or the read of main that failed |
| Publishing.StorePublisher.Publish | scripts/admit_market_data_baseline.py:200-243 | a publication sends only commits of the named files on the verified head; at most one push, and none when nothing changed or the failure carries no publication evidence; it is refused as an unexpected change exactly if another path changed since the run began or one of the two files is gone; the head advances only after tag, HEAD and main were read as the new one and, where outputs are declared, its manifest names this run and lists exactly them |
| Publishing.StorePublisher.PublishReport | scripts/admit_market_data_baseline.py:245-268 | a report leaves facts and ledger as they were and is declared, with its blob, in the budget file of this run |
| Publishing.StorePublisher.Durability | scripts/admit_market_data_baseline.py:81-121 | durable means the commit was main, changes only Store paths, its tag is in place, and its manifest names this run and lists exactly the declared outputs |
| Publishing.StorePublisher.WaitForBudget | scripts/market_data_collectors.py:103-125 | waiting changes nothing but the clock and returns normally only when day and current minute both have room; without a deadline it still ends, and never fails for want of a minute; each refusal has the cause it names |
| Publishing.StorePublisher.DebitBeforeRequest | scripts/admit_market_data_baseline.py:392-501 | a receipt means a commit on the old head that charges exactly one credit to exactly the minute the receipt names, within the limits of day and minute, in a call during which the target was mature and its day running; that commit was main, is tagged and is the verified head; exactly then a debit is recorded. A refusal for want of credit, of maturity, of the day, of time or of a sound ledger has that cause |
| Publishing.StorePublisher.GuardProviderRequest | scripts/admit_market_data_baseline.py:504-527 | the guard passes only while the debit is the verified head, HEAD, remote main and the working tree, in its minute and on the target day |
| Publishing.ChargeChanges | scripts/admit_market_data_baseline.py:440-470 | a charged ledger always makes a new commit |
| Candidates.LoadMeaning | scripts/recover_market_data_baseline.py:168-213 | a directory can be a target exactly when its index names each shard file once and there are no others, has the identity demanded, and the series reads, is not empty, and with the target lies within what the provider can return |
| Candidates.QualifyMeaning | scripts/recover_market_data_baseline.py:216-228 | an answer qualifies exactly when all its rows are full bars and its kept rows are acceptable; what qualifies is then exactly the answered rows dated before the cutoff and not before the effective date, from the smaller of the oldest stored day and the day of the target-th latest such row on |
| Candidates.QualifyOrders | scripts/recover_market_data_baseline.py:216-228 | what qualifies passes the rebase validation, is in strict date order, and consists of full bars dated before the cutoff and not before the effective date |
| Candidates.CutsMeaning | scripts/rebase_market_data_baseline.py:118-144 | rows can be cut exactly if a greedy cut of them exists |
| Candidates.StagedListed | scripts/recover_market_data_baseline.py:168-187 | replacing a directory without stray files leaves one that lists exactly its own shards, adjoining from zero |
| Candidates.StagedValidates | scripts/recover_market_data_baseline.py:231-267 | the validation never refuses what was staged: a qualified replacement of an original that can be cut leaves a canonical directory that reads as exactly the qualified rows, under the old identity and limits, and an archive that keeps the old index and rows and lists exactly the changes |
| Recovery.FetchReplacement | scripts/recover_market_data_baseline.py:431-443 | a request is made only with the receipt in hand, directly after main, HEAD, working tree and ledger were seen to be those of the debit, in its minute and day, and once; the log then holds exactly that read, the request and the answer |
| Recovery.AdmitOne | scripts/admit_market_data_baseline.py:540-629 | a target counts as admitted exactly when the provider answered for it and the answer qualifies, as `Candidates.QualifyMeaning` says it of the answer |
| Recovery.Execute | scripts/admit_market_data_baseline.py:540-629 | an admission run keeps the discipline, publishes nothing but budget and report, reports the true number of requests, each paid for in the published ledger, and passes only if every target was requested once and its answer passes the comparison |
| Recovery.TargetMeaning | scripts/recover_market_data_baseline.py:190-213 | a target is loaded exactly when its directory can be a target and no archive of the day is there |
| Recovery.LoadEntries | scripts/recover_market_data_baseline.py:190-213 | originals are loaded if and only if every target has a series of the right identity without stray files that reads, no archive of that day, and a history the provider can return |
| Recovery.ReplacedStep | scripts/recover_market_data_baseline.py:296-314 | archiving and replacing one more target touches no other path |
| Recovery.StageTree | scripts/recover_market_data_baseline.py:290-314 | staging succeeds if and only if no target has changed or has an archive and every replacement can be cut; the tree then holds the rewritten directory and the archive of every target, all validated |
| Recovery.ValidateCandidate | scripts/recover_market_data_baseline.py:231-267 | the loop over the staged tree accepts exactly when every directory and archive is as required |
| Recovery.DeclaredMeaning | scripts/recover_market_data_baseline.py:315-341 | the manifest lists exactly the inventory, the report, and the directory and archive of each target, each with its blob in the tree |
| Recovery.FinishedTree | scripts/recover_market_data_baseline.py:315-341 | the commit over that tree, with inventory, report and ledger, touches nothing else |
| Recovery.StageAndPublish | scripts/recover_market_data_baseline.py:282-367 | a failure before the push pushes nothing; the only push is the complete fact commit on the verified head; success means it was read back, is tagged, and its manifest lists exactly every series, archive, inventory and report |
| Recovery.CollectRows | scripts/recover_market_data_baseline.py:415-452 | one debit and one request per target; both counts are those of the log; each target gets the rows that qualify of an answer to a request for it, and no market fact is written |
| Recovery.Recover | scripts/recover_market_data_baseline.py:370-475 | whatever fails, the pushes of a run are metadata commits, except possibly the last, which is the commit replacing every target, each new directory reading as the rows that qualified of an answer of this run (`Candidates.QualifyMeaning` says which); success means there are targets, none twice, and each was replaced; a failure without publication evidence leaves facts untouched; request and debit counts are those of the log, and the last verified ledger has paid for every request; on the remote, whoever else writes, all targets are replaced or none |
| Recovery.RemoteAllOrNothing | scripts/recover_market_data_baseline.py:282-475 | of the commits a run sent, each that landed sits directly on its parent and either leaves every fact alone or replaces all targets and archives their old rows; the latter is one commit |
| Coverage.MinuteGrid | scripts/market_data_collection.py:322-331 | the grid is the set of whole minutes from start on before end; an empty window is refused |
| Coverage.FullIsOnePerMinute | scripts/market_data_collection.py:464-480 | full coverage is exactly one observation in every minute of the window and none elsewhere |
| Coverage.StageFullByParts | scripts/market_data_collection.py:464-480 | a window split at a minute is full if and only if both parts are |
| Coverage.FullWindowFromOneProvider | scripts/market_data_collection.py:354-370 | the check computes the strict one-minute grid with the exact terminal fact |
| Coverage.SelectionMatchesCoverage | scripts/market_data_collection.py:354-480 | selection and coverage agree: selectable as a full window if and only if counted full and terminal |
| Coverage.QualifyingMeaning | scripts/market_data_collection.py:681-760 | of a provider answer every finite row in the window is kept, in order and as often as it came, and no other |
| Coverage.ChosenMeaning | scripts/market_data_collection.py:704-760 | no splice: the selection is one whole answer, absent only if neither provider qualifies, full whenever the fallback may run and either is full, and a primary answer is never displaced otherwise |
| Coverage.WholeAnswerIsFull | scripts/market_data_collection.py:681-760 | a primary answer with one finite fact in every minute of the window is selected as it is and counted full and terminal |
| Coverage.SelectFacts | scripts/market_data_collection.py:681-760 | the two fetch passes compute that selection for every symbol |
| Coverage.ScopeCoverage | scripts/market_data_collection.py:401-519 | coverage is reported if and only if scope, window and missing hint agree with the facts; complete means every requested symbol is full and terminal |
| Coverage.Judge | scripts/market_data_collection.py:487-503 | the counting inequalities checked at the end can never fail |
| StageChain.CaptureFacts | scripts/market_data_collection.py:522-531 | the facts per symbol are those of the captures, in order |
| StageChain.MissingIsExact | scripts/market_data_collection.py:826-864 | each branch of the missing-set computation, for every stage and mode, yields requested symbols minus symbols with an in-window fact among the captures carried |
| StageChain.Capture | scripts/market_data_collection.py:762-806 | one capture per selected symbol; missing is the rest |
| StageChain.WholeAnswerCounts | scripts/market_data_collection.py:681-860 | a symbol asked for whose primary answer is whole ends with that whole answer captured, full and terminal |
| StageChain.SnapshotStore.RetrySymbols | scripts/collect_market_data.py:243-276 | the retry list is the Close universe minus symbols with a persisted Close-window fact, and its checks never fail |
| StageChain.AskedMeaning | scripts/collect_market_data.py:243-276 | a run asks each symbol of its scope at most once, and all of them unless it is a retry |
| StageChain.StageTimes | scripts/market_data_collection.py:1036-1062 | the stages are the first quarter hour, half hour and hour of the session and its last quarter hour; each increment ends with its stage and begins where the stage before it ended |
| StageChain.SnapshotStore.Collect | scripts/market_data_collection.py:633-950 | coverage never reports a disagreement and counts, for the increment and for the stage, exactly what was captured; a snapshot is published exactly when something was captured, and it begins with the captures of the stage before, in a retry with its own; whoever is asked for and has a whole primary answer ends captured, full and terminal; a primary answer stands unless a sparse one may be replaced and only the alternate one is full |
| StageChain.AdvanceConsistent | scripts/market_data_collection.py:808-864 | one run of any mode keeps every published missing set exact |
| StageChain.RunsStayConsistent | scripts/market_data_collection.py:808-864 | over every run of a day, in any order and with any answers, every published missing set is exact |
| StageChain.RetryRemovesAnswered | scripts/collect_market_data.py:243-276 | a Close retry asks for exactly the missing symbols, keeps every capture, and removes exactly those now answered |
| StageChain.RetriesNeverEnlarge | scripts/market_data_collection.py:858-862 | no run of Close retries enlarges the missing set or drops a capture |
| StageChain.CloseFactsFromOneCapture | scripts/collect_market_data.py:243-276 | over every run of a day each symbol's Close-window facts come from one capture: a retry never asks again for a symbol that has one |
| StageChain.StageFullOnlyByFullParts | scripts/market_data_collection.py:808-900 | a symbol has a full 30- or 60-minute stage if and only if its inherited stage was full and so is the increment |
| TargetSelection.OpenTargets | scripts/build_deterministic_metric_proof.py:448-480 | Open stages fail exactly on contradictory facts of one instant, else choose the latest observation with the smallest key |
| TargetSelection.OpenOrderFree | scripts/build_deterministic_metric_proof.py:448-480 | the Open outcome is the same under every permutation of captures and facts |
| TargetSelection.CloseTargets | scripts/build_deterministic_metric_proof.py:439-447 | the Close walk computes the stated fold |
| TargetSelection.CloseMeaning | scripts/build_deterministic_metric_proof.py:439-447 | the walk fails if and only if some fact differs from an earlier one at the latest instant so far; else it holds the latest observations |
| TargetSelection.CloseSuccessesAgree | scripts/build_deterministic_metric_proof.py:439-447 | two orders that both succeed choose the same observations |
| TargetSelection.LatestTieAlwaysFails | scripts/build_deterministic_metric_proof.py:439-447 | differing candidates at the latest instant fail in every order |
| TargetSelection.CloseOrderFreeIff | scripts/build_deterministic_metric_proof.py:439-447 | Close is independent of order if and only if no instant has differing candidates or the latest instant of some symbol does |
| TargetSelection.CloseOrderCanMatter | scripts/build_deterministic_metric_proof.py:439-447 | whenever two differing facts of one instant are followed by a later one, one order succeeds and another fails |
| TargetSelection.CloseOrderExample | scripts/build_deterministic_metric_proof.py:439-447 | three concrete observations with one order accepted and another refused |
| CloseOrder.WalkBySymbol | scripts/build_deterministic_metric_proof.py:439-447 | the walk succeeds if and only if it succeeds on the observations of each symbol alone |
| CloseOrder.PublishedCloseIsOrderFree | scripts/build_deterministic_metric_proof.py:439-447 | on every Close snapshot the stage chain publishes, reordering the captures never changes the outcome of target selection |
| MetricProof.MetaMeaning | scripts/build_deterministic_metric_proof.py:152-183 | a series identity is that of its rows: the last is the latest day before the trade day and the count the number of rows before it; there is one exactly when the shards are intact and a row is dated before the trade day |
| MetricProof.LoadMeaning | scripts/build_deterministic_metric_proof.py:152-183 | a daily series is unavailable exactly when it has no index, broken exactly when it has one but not the right identity, shards and an earlier row, and is else described by its rows |
| MetricProof.BehindMeaning | scripts/build_deterministic_metric_proof.py:638-641 | a target is behind exactly when another target has a row before the trade day that is later than each of its own |
| MetricProof.CheckedMeaning | scripts/build_deterministic_metric_proof.py:509-620 | the recorded identity of a series is verified exactly when it describes the rows of the series before the trade day |
| MetricProof.MeasuredMeaning | scripts/build_deterministic_metric_proof.py:623-708 | the metrics of a subject can be computed exactly when each of its rows before the trade day can be measured |
| MetricProof.Build | scripts/build_deterministic_metric_proof.py:623-708 | a proof is built if and only if the stage pointer and its snapshot agree, target selection on its observations succeeds, no target or benchmark series is broken, and the earlier rows of every subject can be measured; the verifier accepts it |
| MetricProof.Verify | scripts/build_deterministic_metric_proof.py:509-620 | a proof is accepted if and only if it names its snapshot exactly and its partition, the targets selected from the observations, and its daily identities are those of the tree |
| MetricProof.Select | scripts/build_deterministic_metric_proof.py:274-480 | selection by the rule of the stage has one result, or none when the stage is unknown, a check failed or facts are ambiguous |
| MetricProof.TargetsReordered | scripts/build_deterministic_metric_proof.py:439-480 | snapshots of one stage that read the same observations in different orders select the same targets, or, at Close only, one selects none |
| MetricProof.AcceptedAgreesWithBuilt | scripts/build_deterministic_metric_proof.py:509-708 | every accepted proof of a snapshot has exactly the builder's subjects, targets and missing reasons |
| MetricProof.ReorderedProofsAgree | scripts/build_deterministic_metric_proof.py:439-708 | accepted proofs of such snapshots have the same subjects, targets and missing reasons |
| ConflictAudit.ConflictRecord | scripts/market_data_collectors.py:265-302 | the record lists, in field order, exactly the fields that read differently |
| ConflictAudit.AuditRecord | scripts/offline_store_audit.py:198-211 | the reconstruction with its doubling accepts exactly the sound, non-empty lists that allow the recorded row |
| ConflictAudit.VariantsStep | scripts/offline_store_audit.py:206-210 | the candidate rows after one more field are exactly the rows the longer list allows |
| ConflictAudit.AcceptedIff | scripts/offline_store_audit.py:198-211 | a record of a null-free stored row is accepted if and only if the rows differ in a listed field, agree elsewhere, and no new null stands where the stored row has nothing |
| ConflictAudit.RejectedRecordExample | scripts/offline_store_audit.py:198-211 | two concrete rows that differ and whose record the auditor rejects |
| ConflictAudit.FetchedRowsAreAccepted | scripts/market_data_collectors.py:191-230 | a differing row as the daily parser delivers it is always accepted |
| ConflictAudit.StoreSourceReference | scripts/market_data_collectors.py:237-262 | the reference names a shard and position of that day, or no shard has the day |
| ConflictAudit.PositionPointsBack | scripts/offline_store_audit.py:175-197 | the recorded position is where the auditor, counting shard by shard, finds that very row |
| JsonPointer.UnescapeEscape | scripts/legacy_snapshot_compat.py:72-75 | unescaping an escaped token returns it (RFC 6901 section 4) |
| JsonPointer.ParsePrintIff | scripts/legacy_snapshot_compat.py:171-175 | a printed path parses back to itself if and only if it is not empty and does not begin with an empty token unless that is all of it |
| JsonPointer.PrintInjective | scripts/legacy_snapshot_compat.py:72-75 | a pointer with a non-empty first token is printed by one path only |
| JsonPointer.GetPointer | scripts/legacy_snapshot_compat.py:171-179 | the reader walks the parsed path |
| JsonPointer.PointerReachesNode | scripts/legacy_snapshot_compat.py:171-179 | reading a printed pointer, keys and indices included, reaches the node it was printed for |
| JsonPointer.RootPointerMisses | scripts/legacy_snapshot_compat.py:171-175 | the document's own pointer does not reach the document |
| JsonPointer.UnchangedIff | scripts/legacy_snapshot_compat.py:140-156 | the diff is empty if and only if the documents are equal as Python compares them |
| JsonPointer.UnseenChange | scripts/legacy_snapshot_compat.py:140-156 | two different documents, true against 1 and 1 against 1.0, with an empty diff |
| JsonPointer.ChangedMeaning | scripts/legacy_snapshot_compat.py:140-156 | the diff names exactly the points where the documents, as Python compares them, part |
| Text.StringMeaning | scripts/legacy_snapshot_compat.py:102-105 | strings are in the order of their first different characters, a prefix first |
| LegacyProjection.SortedSetMeaning | scripts/legacy_snapshot_compat.py:102-105 | canonical order: the same strings, each once, ascending |
| LegacyProjection.CanonicalMeaning | scripts/legacy_snapshot_compat.py:102-105 | canonicalization keeps the set of reasons |
| LegacyProjection.RepairOne | scripts/legacy_snapshot_compat.py:256-262 | reading and rewriting one pointer succeeds exactly where there is something to repair, and touches that array only |
| LegacyProjection.ChangedClasses | scripts/legacy_snapshot_compat.py:140-166 | replacing arrays changes the document at those arrays and nowhere else |
| LegacyProjection.TargetPointer | scripts/legacy_snapshot_compat.py:166-168 | every repaired pointer is diagnostic and reads back as its path |
| LegacyProjection.Transform | scripts/legacy_snapshot_compat.py:236-263 | the projection succeeds if and only if every reported error names a repairable array, and then differs from the original at exactly those arrays, each canonical |

## Left out

- HTTP, provider payloads, environment variables, command lines and YAML or JSON configuration: parsed rows, limits and targets are parameters.
- Real Git, subprocesses, file descriptors and symlink checks: replaced by an abstract remote, checkout and working tree with nondeterministic answers.
- Canonical JSON text: equality of canonical bytes is equality of values, with integers and floats kept apart; values such as -0.0 that are equal but print differently are excluded.
- Time zones and daylight saving: days, minutes and instants are integers.
- The floating-point values of metrics and benchmark strength (`compute_metrics`): the proof builder is modelled up to its snapshot, subjects, targets, daily identities, missing reasons, and whether the rows can be measured.
- `_field_diff` and the `baseline_initialization` block of an index: descriptive fields no reader depends on.
- Shard file names: a path is the number its name prints; the six-digit pattern that recovery and the auditor demand of it is not modelled.
- A write of one file is atomic here; the program writes through a temporary file for series documents but writes archives directly.
- The ordinary collectors debit after the request, so debit-before-request is stated for admission and recovery only.
- Selectors and universe validation of a recovery: the target list is a parameter.
- The historical context repair mode of a Close collection, readiness timing, reason classes and the advisory close-missing file.
- The legacy `collect_regular_window` in scripts/market_data_collectors.py; the one in scripts/market_data_collection.py is modelled.
- The order of facts inside a provider's answer and of rows inside a metric proof: captures and proofs are compared by content.
- The field checks of `_target_observations` on one fact (price source, window, positive price): observations enter selection already qualified.
- `int()` on a pointer part accepts signs, blanks and underscores; the model reads digits only.
- Schema validation before and after the projection: the reported errors are inputs of `LegacyProjection.Transform`, the revalidation of its result is not part of this model.
- The projected document is a value: the aliasing of nested dictionaries between the steps of `_set_pointer` is not modelled.
- Workflow files, schemas, inventories beyond their place in a recovery commit, publication manifests of other programs and public log projection.
- Recovery.LoadEntries: a series directory is one entry of the commit tree, with its index and shard files inside; symbolic links and nested directories among the files are not modelled.
- Recovery.StageTree: the directory of one target changes as a whole, because it is staged in a worktree nobody else reads; the order of the writes inside it is the subject of `Rebase`. Trade date and path of the archive are not modelled.
- Recovery.Recover: declared outputs and the change check speak of a series directory as one path, not of its files one by one.
- Upper case is that of the letters a to z.
- Publishing.StorePublisher.GuardProviderRequest: the compute checkout's own freshness check is a nondeterministic answer.
