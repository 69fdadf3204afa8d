# Formal model of the PromptShield core

PromptShield is a gateway that scans traffic to and from language models. This
project models the stateful algorithms at its core in Dafny and proves what
they guarantee, for every input, every interleaving or every reachable state.
Check everything with `dafny verify dfyconfig.toml`.

| area | files |
|---|---|
| rule packs: `extends` order, last-wins and first-wins merge, imports | `ExtendsOrder`, `Merge`, `MergeByName`, `PriorityMerge`, `Imports`, `RulePacks` |
| streaming detection: sliding window, shared byte budget | `SlidingWindow`, `Inflight`, `InflightSizes`, `ByteStrings` |
| scanner: chunked lines, long-line segments, keyword index, dedup keys, checksums | `ChunkedReader`, `LongLine`, `Aho`, `Keywords`, `DedupKeys`, `KeywordEval`, `KeywordReports`, `LongLineKeywords`, `InputScan`, `Checksums` |
| decision log: ring buffer, cursor paging, percentiles | `DecisionLog`, `Paging`, `Percentile`, `Modular` |
| job manager: critical sections and all their interleavings | `Jobs`, `JobRuns` |
| audit hash chain | `Audit` |
| rule-update subscriber and its backoff | `Subscriber`, `Backoff` |
| assignment cache in front of Postgres | `AssignmentCache` |
| string order and sorting | `Ordering` |

Code that updates state in place is a class or a method with loops, proved
equal to a pure function of the old state or to a declarative predicate; the
theorems about whole runs are lemmas about those functions. Concurrency is a
step relation: one step per atomic access or critical section, and the lemmas
quantify over every finite sequence of enabled steps.

## Findings

Properties that do not hold on all inputs are stated with the exact condition
under which the code meets them.

- A substring of at most overlap+1 bytes is scanned whole if and only if no
  chunk, with the tail carried before it, exceeds the window
  (`SlidingWindow.NothingLostIff`).
- On a long line such a substring is missed exactly when it straddles a segment
  boundary with fewer than overlap bytes after it and no earlier overlapped
  segment reaches its end (`LongLine.ShownIff`, `LongLine.PairLost`).
- Waiting streams are counted before they are admitted. A run without cancels that
  admits a given waiter exists if and only if all waiters together fit the limit
  (`Inflight.AdmissibleIff`, `Inflight.MutualBlockIsReachable`).
- The chunked reader charges carried bytes twice, so an input within the byte
  limit can be refused; the charge is exact if and only if no read closes a line
  begun in an earlier read (`ChunkedReader.ChargedAtLeast`,
  `ChunkedReader.SmallInputOverLimit`).
- The keyword index does not filter hits by the rule's own keywords. An any-logic
  rule is found in exactly the lines with one of its own keywords if and only if
  every indexed pattern in lower case contains one of them; patterns with capitals
  never occur in the lower-cased line (`Keywords.IndexedAnyExactIff`).
- The plain keyword path looks at first occurrences only, which is enough exactly
  when the rule does not ask for whole words (`Keywords.FirstIsEnoughIff`).
- Dedup keys are formatted strings that two rules can share on line n, and then one of
  the rules is lost. Ids share a key if and only if they are equal or one is the other
  followed by `|n|kw` and then nothing or a bar; evaluation reports exactly the matching
  rules, for all rules with given ids, if and only if no two of the ids do that
  (`DedupKeys.ShareKeyIff`, `KeywordReports.AlwaysExactIff`, `KeywordReports.SuppressedRule`).
- Cutting a long line can turn part of a word into a whole word, so a rule is reported
  that its line does not contain: exactly when nothing counts in the line and an
  occurrence lies at a cut with a word character across it. An any-logic rule that is
  case-sensitive, indexed or evaluated without an index is safe from that on every line
  if and only if it does not ask for whole words or everything it looks for, including
  the indexed patterns of other rules, is longer than a segment
  (`LongLineKeywords.InventedIff`, `LongLineKeywords.NeverInventsIff`, `LongLineKeywords.CatReadAsAt`).
- A job that `Submit` creates and then cannot queue or send carries no completion time.
  In every reachable state some cleanup would remove a listed terminal job if and only if
  its submission was not refused in that way (`JobRuns.CleanupRemovesIff`,
  `JobRuns.SubmitRejects`, `JobRuns.RejectedStaysForever`).
- An assignment deleted, or updated under a wrong tenant, after its preliminary
  read failed leaves stale cached lists; exactly when is
  `AssignmentCache.BlindDeleteCoherentIff` and `AssignmentCache.BlindUpdateCoherentIff`,
  with the witness `AssignmentCache.StaleAfterBlindDelete`.
- `EqualJitter` panics exactly when its clamped, possibly overflowed bound is below
  two. The subscriber never gets there; attempt 34 would
  (`Backoff.EqualJitter`, `Backoff.LargeAttemptPanics`).

## Model

| member | source | states |
|---|---|---|
| `Ordering.LeqIsDictionaryOrder` | internal/rules/merge.go:36 | names and ids are compared as in a dictionary |
| `ExtendsOrder.Walker.Visit` | internal/rules/merge.go:41-56 | the closure over `visited` and `order` takes one depth-first step, on any graph and with a termination measure on packs not yet visited |
| `ExtendsOrder.Walker.VisitRoots` | internal/rules/merge.go:57-59 | visiting all roots yields the processing order |
| `ExtendsOrder.OrderComplete` | internal/rules/merge.go:38-59 | on any graph, cyclic or dangling, each pack name is listed exactly once, and a present dependency comes later only if it can reach back to the pack |
| `ExtendsOrder.DependenciesFirstIffAcyclic` | internal/rules/merge.go:19-20 | every present dependency precedes its dependants if and only if `extends` has no cycle |
| `ExtendsOrder.FlatOrder` | internal/rules/merge.go:149-151 | when no pack extends another, packs are processed in the order of the root list |
| `ExtendsOrder.OrderOfRoots` | internal/rules/merge.go:57-59 | after some of the roots the order lists exactly what they reach |
| `ExtendsOrder.SmallerRootFirst` | internal/rules/merge.go:36-59 | on any graph, with roots sorted by name: if the least name reaching x is below the least name reaching y, x is processed before y |
| `ExtendsOrder.LastReachedLatest` | internal/rules/merge.go:36-59 | what is processed later is never reached from a smaller least name |
| `Merge.IndexPacks` | internal/rules/merge.go:29-35 | of several packs with one name the last is kept, and all names are listed |
| `Merge.CollectRules` | internal/rules/merge.go:61-68 | the table holds for each id its last definition in processing order, and nothing else |
| `Merge.CollectPack` | internal/rules/merge.go:65-67 | one pack's rules replace earlier definitions of the same id |
| `Merge.ApplyOverrides` | internal/rules/merge.go:69-85 | every tabled rule is its last definition with all overrides in processing order folded in |
| `Merge.OverridePack` | internal/rules/merge.go:72-84 | one pack's overrides patch exactly the rules they name |
| `Merge.SeverityAfter` | internal/rules/merge.go:77-79 | the severity is that of the last override setting one, or the rule's own |
| `Merge.EnabledAfter` | internal/rules/merge.go:80-82 | the flag is that of the last override carrying one, or the rule's own |
| `Merge.ActiveIds` | internal/rules/merge.go:88-96 | in whatever order the map is ranged over, exactly the ids of rules not disabled, each once |
| `Merge.ListById` | internal/rules/merge.go:98-101 | the rules in the order of the sorted ids |
| `Merge.Materialize` | internal/rules/merge.go:87-102 | exactly the tabled rules that are not disabled, strictly sorted by id |
| `Merge.TableSurvivors` | internal/rules/merge.go:21-25 | a rule is an active table entry if and only if it is the overridden last definition of its id |
| `Merge.MergePacks` | internal/rules/merge.go:27-103 | the output is strictly sorted by id and contains a rule if and only if it is the last definition of its id with its last overrides applied and is not disabled |
| `Merge.MergeIgnoresInputOrder` | internal/rules/merge.go:15-17 | for distinct pack names any reordering of the packs gives the same list |
| `MergeByName.ByNameIsLast` | internal/rules/merge.go:31-34 | of several packs with one name the last of the input is used |
| `MergeByName.LatestReachedWins` | internal/rules/merge.go:19-22 | on any graph each merged rule comes from the last definition in a pack that, among all packs defining it, has the greatest least reaching name |
| `MergeByName.LastNameWins` | internal/rules/merge.go:18-23 | for distinct names and no extends each merged rule is the last definition in the pack with the greatest name defining it, with overrides in ascending order of names |
| `MergeByName.DisabledAreAbsent` | internal/rules/merge.go:24-25 | a last definition is in the output if and only if it is not disabled |
| `PriorityMerge.MergePacksPriorityOrder` | internal/rules/merge.go:109-192 | the output is the first definition of every id, in processing order of some priority-sorted arrangement of the packs, overridden, without the disabled ones |
| `PriorityMerge.MergeSorted` | internal/rules/merge.go:122-191 | the same for a given sorted arrangement |
| `PriorityMerge.KeepFirst` | internal/rules/merge.go:153-165 | exactly the definitions whose id was not defined before, in order |
| `PriorityMerge.KeepFirstOfPack` | internal/rules/merge.go:158-164 | one pack's contribution to that list and to the seen ids |
| `PriorityMerge.FirstsExact` | internal/rules/merge.go:153-165 | skipping seen ids keeps the rules at exactly the positions that are the first of their id |
| `PriorityMerge.PatchInPackOrder` | internal/rules/merge.go:166-182 | each kept rule gets all overrides of all packs, in processing order |
| `PriorityMerge.PatchOnePack` | internal/rules/merge.go:169-181 | in-place patching of every kept rule with one pack's overrides |
| `PriorityMerge.PatchRule` | internal/rules/merge.go:170-180 | the innermost loop folds one pack's overrides into one rule |
| `PriorityMerge.DropDisabled` | internal/rules/merge.go:183-191 | exactly the positions whose overridden rule is active remain, in order |
| `PriorityMerge.FirstIndices` | internal/rules/merge.go:153-165 | increasing positions, containing i if and only if no earlier definition has its id |
| `PriorityMerge.PriorityMergeIgnoresInputOrder` | internal/rules/merge.go:110-120 | for distinct names the unstable sort cannot show: any input order gives the same list |
| `PriorityMerge.HighestPriorityWins` | internal/rules/merge.go:105-108 | when no pack extends another, each rule comes from the first definition in a pack with the highest priority defining that id, the smallest name deciding among equals, with overrides in that order |
| `PriorityMerge.PrecedingIsNotOutranked` | internal/rules/merge.go:8-13 | the order is by the pack's own priority, 0 without composition, higher first, then by name |
| `PriorityMerge.DisabledFirstsAreAbsent` | internal/rules/merge.go:183-191 | a first definition is kept if and only if it is not disabled once overridden |
| `PriorityMerge.EqualPrioritiesAgree` | internal/rules/merge.go:27-192 | with equal priorities and no id defined twice both strategies keep the same rules |
| `Imports.Resolver.Resolve` | internal/rules/loader.go:39-72 | the recursive closure emits the pack once, follows its specs in order and stops at the first failing one, on any import graph |
| `Imports.Resolver.ResolveEach` | internal/rules/loader.go:54-70 | the inner loop resolves each target not seen yet |
| `Imports.ResolveKeeps` | internal/rules/loader.go:38-72 | one call keeps `emitted` duplicate-free and equal to `seen`, emits only reachable packs, and leaves every pack but those on the stack fully resolved unless an import failed |
| `Imports.ImportsKeep` | internal/rules/loader.go:48-71 | the same for the loop over specs |
| `Imports.TargetsKeep` | internal/rules/loader.go:54-70 | the same for the loop over targets, each of which ends up emitted |
| `Imports.RootsComplete` | internal/rules/loader.go:73-90 | after all roots the emitted paths are exactly the reachable ones |
| `Imports.ResolveRoots` | internal/rules/loader.go:33-90 | succeeds if and only if every reachable pack's imports resolve, and then returns each reachable path exactly once, each a root or imported by a pack before it |
| `Imports.ResolveAppends` | internal/rules/loader.go:38-72 | one call only appends to the output, its own pack first |
| `Imports.CheckUniqueNames` | internal/rules/loader.go:103-120 | accepts if and only if no two listed packs share a non-empty name |
| `Imports.UniqueNamesMeaning` | internal/rules/loader.go:91-93 | on a resolved list that is uniqueness among all reachable packs |
| `Imports.LoadPacks` | internal/rules/loader.go:30-100 | each of the four outcomes happens exactly under its own condition; on success the packs are exactly the reachable set |
| `SlidingWindow.Configure` | internal/interfaces/grpc/enforcer/ctor.go:131-145 | an environment value is used exactly when it is acceptable, else the default; overlap is always below the window limit |
| `SlidingWindow.Direction.Feed` | internal/interfaces/grpc/enforcer/process_stream.go:179-194 | the window is the end of tail plus chunk, the new tail the end of the window |
| `SlidingWindow.TailIsStreamSuffix` | internal/interfaces/grpc/enforcer/process_stream.go:52-54 | after any chunks the tail is the last min(overlap, n) bytes of the whole stream |
| `SlidingWindow.WindowIsSlice` | internal/interfaces/grpc/enforcer/process_stream.go:180-188 | each scanned window is a contiguous slice of the stream ending with its chunk, of known length |
| `SlidingWindow.NothingLostIff` | internal/interfaces/grpc/enforcer/process_stream.go:180-194 | every substring of at most overlap+1 bytes lies in a scanned window if and only if every chunk with its carried tail fits the window |
| `SlidingWindow.HeadIsLost` | internal/interfaces/grpc/enforcer/process_stream.go:186-188 | one chunk that does not fit loses such a substring, wherever it comes in the stream |
| `SlidingWindow.ProcessBodies` | internal/interfaces/grpc/enforcer/process_stream.go:138-230 | a request stream passes if and only if it is within the byte limit and, when enforcing, no window of a non-empty chunk hits; it is blocked if and only if a chunk hits before the limit is passed, and refused for its size otherwise |
| `SlidingWindow.PassedStreamHasNoMatch` | internal/interfaces/grpc/enforcer/process_stream.go:179-224 | if all windows were clean and all chunks fit, no detected pattern of at most overlap+1 bytes occurs anywhere in the stream |
| `Inflight.MoveIsSound` | internal/interfaces/grpc/enforcer/process_stream.go:143-165 | each atomic access changes the counter by exactly what its stream holds more or less, and admits a small chunk only within the limit |
| `Inflight.StepKeepsInv` | internal/interfaces/grpc/enforcer/process_stream.go:40-65 | the accounting invariant survives every step of every stream |
| `Inflight.RunKeepsInv` | internal/interfaces/grpc/enforcer/process_stream.go:236-258 | in every interleaving the counter is the sum of waiting and admitted bytes, and admitted chunks below the limit never total more than the limit |
| `InflightSizes.BodiesStayCounted` | internal/interfaces/grpc/enforcer/process_stream.go:143-165 | over every run from the start, with sizes taken from the bodies received: the counter is at least what waiting and scanning streams received last, and exactly that while no stream is releasing; bodies below the limit being scanned never total more than the limit |
| `InflightSizes.RunCarries` | internal/interfaces/grpc/enforcer/process_stream.go:55-65 | in every reachable state a waiting or scanning stream holds exactly the size of the body it received last |
| `Inflight.CounterReturnsToZero` | internal/interfaces/grpc/enforcer/process_stream.go:43-50 | when all streams have ended, on any exit path, the counter is zero |
| `Inflight.WaiterProceedsIff` | internal/interfaces/grpc/enforcer/process_stream.go:148-162 | with nothing admitted a waiter proceeds if and only if the waiting total is within the limit |
| `Inflight.OnlyCancelUnblocks` | internal/interfaces/grpc/enforcer/process_stream.go:145-160 | once the waiters exceed the limit, every run without a cancel keeps all of them waiting |
| `Inflight.AdmissibleIff` | internal/interfaces/grpc/enforcer/process_stream.go:143-165 | from any state of a run, a continuation without cancels that admits a given waiter exists if and only if the waiting total is within the limit |
| `Inflight.MutualBlockIsReachable` | internal/interfaces/grpc/enforcer/process_stream.go:145-147 | two chunks of six bytes under a limit of ten reach such a state |
| `DecisionLog.Log.constructor` | internal/application/decisions/log.go:51-61 | an empty log of the asked or default capacity, with zero counts |
| `DecisionLog.Log.Add` | internal/application/decisions/log.go:65-79 | the history grows by the record, stamped if it had no time and numbered one more than the last; ring and counts keep representing it |
| `DecisionLog.Log.Store` | internal/application/decisions/log.go:71-77 | numbering, slot, wrap and size, without the counters |
| `DecisionLog.HoldsAdd` | internal/application/decisions/log.go:73-74 | overwriting the next slot keeps exactly the last min(capacity, total) records |
| `DecisionLog.CountedAdd` | internal/application/decisions/log.go:78 | lifetime counts agree with the history per decision and sum to the total |
| `DecisionLog.Log.Scan` | internal/application/decisions/log.go:92-109 | filter-then-take on the history restricted to the retained suffix, newest first |
| `DecisionLog.Log.ScanFrom` | internal/application/decisions/log.go:98-107 | the loop over ring offsets collects the matching records of that part of the history until the limit |
| `DecisionLog.CollectIsTake` | internal/application/decisions/log.go:98-107 | stopping at the limit equals collecting everything and capping it |
| `DecisionLog.SkipAboveCursor` | internal/application/decisions/log.go:93-96 | starting below the cursor loses no match |
| `DecisionLog.NewestMembers` | internal/application/decisions/log.go:82-109 | a record is listed if and only if it is in range, has the asked decision, if any, and lies below the cursor, if any |
| `DecisionLog.NewestDescending` | internal/application/decisions/log.go:88-91 | sequence numbers in a listing strictly fall |
| `DecisionLog.ListingIsNewest` | internal/application/decisions/log.go:88-91 | a listing is the newest matches, as many as the limit allows, all of them without a limit |
| `DecisionLog.Log.Recent` | internal/application/decisions/log.go:82-86 | the listing under the query's own limit |
| `DecisionLog.Log.GetPage` | internal/application/decisions/page.go:15-27 | one page with lookahead by one record and the cursor for the next |
| `DecisionLog.Log.BlockRate` | internal/application/decisions/log.go:137-140 | the rate times the total is the number of deny and quarantine records ever added |
| `Paging.NextIffOlderMatch` | internal/application/decisions/page.go:6-8 | `Next` is non-zero if and only if a matching record older than the page is retained |
| `Paging.UnlimitedPage` | internal/application/decisions/page.go:16-18 | without a limit there is one page with every match |
| `Paging.PageDescends` | internal/application/decisions/page.go:11-12 | within a page sequence numbers strictly fall |
| `Paging.CursorsFall` | internal/application/decisions/page.go:26 | the cursors of successive pages never rise |
| `Paging.NothingRepeats` | internal/application/decisions/page.go:12-14 | across pages, with any records added in between, sequence numbers strictly fall |
| `Paging.EveryRecordIsDue` | internal/application/decisions/page.go:12-14 | a finished listing has, for each matching record of the first snapshot, a page where it is due and where it is returned if and only if it is still retained |
| `Paging.SurvivorsAreReturned` | internal/application/decisions/page.go:13-14 | a matching record still retained at the last page was returned |
| `Percentile.NearestRank` | internal/application/decisions/log.go:155-166 | a sample such that at least the fraction p of the samples is at or below it, and less than that fraction, or none, is strictly below it |
| `Percentile.SortedCounts` | internal/application/decisions/log.go:160-165 | the k-th sorted element has those counts |
| `Percentile.SameCounts` | internal/application/decisions/log.go:159 | sorting a copy does not change the counts |
| `Jobs.Manager.constructor` | internal/jobs/manager.go:61-73 | an empty manager |
| `Jobs.Manager.RegisterProcessor` | internal/jobs/manager.go:82-86 | the processor type is known from now on |
| `Jobs.Manager.Submit` | internal/jobs/manager.go:111-153 | a pending job, queued or handed to the durable queue, or a failed one, or a refusal; success if and only if the job is pending |
| `Jobs.Manager.Cancel` | internal/jobs/manager.go:186-205 | cancels if and only if the job is known and neither completed nor failed |
| `Jobs.Manager.Begin` | internal/jobs/manager.go:232-268 | the first critical section starts exactly the pending jobs with a processor |
| `Jobs.Manager.FinishJob` | internal/jobs/manager.go:276-299 | the second critical section records the outcome unless the job was cancelled in the gap |
| `Jobs.Manager.CleanupCompleted` | internal/jobs/manager.go:303-321 | removes exactly the terminal jobs completed before the cutoff and counts them |
| `JobRuns.StepKeeps` | internal/jobs/manager.go:208-300 | every critical section keeps the invariant, and no job moves backwards |
| `JobRuns.RunKeeps` | internal/jobs/manager.go:225-300 | over every run terminal statuses and results never change and the invariant holds |
| `JobRuns.ReachableStates` | internal/jobs/manager.go:232-300 | from the empty manager each id is processed at most once even under redelivery, a cancelled job has no result, unfinished jobs are never removed, and each pending in-memory job is queued or in a worker's hand |
| `JobRuns.OutcomeIsShown` | internal/jobs/manager.go:276-299 | in every reachable state a job whose processor returned, and that is not cancelled, is completed if and only if there was no error, with that result, error text, progress and time; only such a job is completed, and a failed one is such a job or was refused |
| `JobRuns.HandedInOrder` | internal/jobs/manager.go:145-147 | the in-memory queue hands jobs out in the order of submission |
| `JobRuns.UnfinishedCanBeCancelled` | internal/jobs/manager.go:186-205 | any job that has not ended can be cancelled, also while it runs |
| `JobRuns.ProcessorAlwaysFound` | internal/jobs/manager.go:249-268 | the missing-processor branch is unreachable: a listed pending job starts |
| `JobRuns.SubmitRejects` | internal/jobs/manager.go:115-153 | a new job is listed with its type and input, and is left failed without a completion time if and only if its type is known and the queue is full, or the durable queue did not take it |
| `JobRuns.CleanupRemovesIff` | internal/jobs/manager.go:303-316 | in every reachable state a cleanup can remove a listed terminal job if and only if its submission was not refused; refused jobs were never processed |
| `JobRuns.RemovedByIff` | internal/jobs/manager.go:310-316 | a cleanup removes exactly the terminal jobs completed before its cutoff |
| `JobRuns.RejectedStaysForever` | internal/jobs/manager.go:303-316 | no run, cleanups included, removes a job its submission left failed without a completion time |
| `Audit.CanonicalKeys` | internal/audit/logger.go:106-112 | collecting keys in any iteration order and sorting gives the same key list |
| `Audit.CanonicalIffEquivalent` | internal/audit/logger.go:103-127 | two values have the same canonical form if and only if they are equal up to nil map, empty map and empty list at any depth |
| `Audit.SanitizedStrings` | internal/audit/logger.go:55-87 | every string value at any depth has been redacted |
| `Audit.SanitizeRedacts` | internal/audit/logger.go:55-87 | the result has the same keys, lengths and scalars at every depth, and every string redacted |
| `Audit.RedactedUnique` | internal/audit/logger.go:55-87 | that determines the result |
| `Audit.NothingElseChanges` | internal/audit/logger.go:55-87 | a redactor that changes no string changes no data |
| `Audit.TamperEvident` | internal/audit/logger.go:89-138 | two well-formed logs ending in the same hash have the same length and the same events up to canonical form |
| `Audit.AppendWellFormed` | internal/audit/logger.go:40-49 | appending an event linked to the last one keeps the chain well-formed |
| `Audit.FileLogger.constructor` | internal/audit/logger.go:34 | an empty chain |
| `Audit.FileLogger.Log` | internal/audit/logger.go:36-51 | an accepted event extends the chain, linked, with the given data redacted string by string and otherwise whole; a failed write leaves everything unchanged |
| `ChunkedReader.SplitIsExact` | internal/scanner/io.go:187-204 | the reference split: no line holds a newline and rejoining gives the input back |
| `ChunkedReader.LinesExact` | internal/scanner/io.go:223-228 | only a trailing empty line is dropped |
| `ChunkedReader.IndexNewline` | internal/scanner/util.go:5-7 | the first newline, or none |
| `ChunkedReader.Reader.EndLine` | internal/scanner/io.go:188-204 | counting, limit test and evaluation of a finished line |
| `ChunkedReader.Reader.Carry` | internal/scanner/io.go:206-208 | bytes of an unfinished line are kept and charged |
| `ChunkedReader.Reader.TakePiece` | internal/scanner/io.go:184-218 | one turn of the inner loop, up to the next newline or the end of the read; on a limit hit exactly the lines closed before it are evaluated |
| `ChunkedReader.Reader.Consume` | internal/scanner/io.go:184-218 | one read: all its lines are evaluated and charged, or its first piece over the limit ended the scan |
| `ChunkedReader.ScanChunked` | internal/scanner/io.go:170-238 | for every way of splitting the input into reads exactly its lines are evaluated, correctly numbered; the limit is hit if and only if the charge passes it, and then exactly the lines closed before the piece that passes it are evaluated |
| `ChunkedReader.StopIsUnique` | internal/scanner/io.go:194-216 | there is only one such piece |
| `ChunkedReader.ChargedAtLeast` | internal/scanner/io.go:193-208 | the charge is never below the bytes read, and equal if and only if no read closes a carried line |
| `ChunkedReader.WithinLimit` | internal/scanner/io.go:194-216 | a scan that ended without a limit hit had input within the limit |
| `ChunkedReader.SmallInputOverLimit` | internal/scanner/io.go:193 | three bytes split before the newline are charged as five |
| `LongLine.Segments` | internal/scanner/evaluate.go:336-357 | the segments evaluated, in order |
| `LongLine.SegmentListMembers` | internal/scanner/evaluate.go:347-355 | that list holds exactly the grid starts with their overlapped ends, all within the line |
| `LongLine.ShownIff` | internal/scanner/evaluate.go:347-355 | a substring of at most overlap+1 bytes lies in a segment unless it straddles a boundary with fewer than overlap bytes after it and no earlier segment reaches its end; both directions |
| `LongLine.ShownIffUncut` | internal/scanner/evaluate.go:352-354 | for an overlap of at most a segment the boundary test alone decides |
| `LongLine.EveryByteShown` | internal/scanner/evaluate.go:347-351 | segments cover every byte |
| `LongLine.PairLost` | internal/scanner/evaluate.go:352 | a concrete line whose pair around byte 20 no segment shows |
| `Aho.NewAho` | internal/scanner/aho.go:23-40 | exactly the distinct non-empty patterns |
| `Aho.Occurrences` | internal/scanner/aho.go:55-64 | all occurrences of one pattern, overlapping ones included, each once |
| `Aho.FindAll` | internal/scanner/aho.go:43-68 | exactly all overlapping occurrences of all patterns, each once, sorted by index |
| `KeywordEval.LineScan.Report` | internal/scanner/evaluate.go:119-134 | a violation is added if and only if its formatted key is new, whichever rule used it before |
| `KeywordEval.LineScan.EvalPlainAny` | internal/scanner/evaluate.go:212-248 | tries to record the first occurrence of each keyword if it counts, in order |
| `KeywordEval.LineScan.EvalPlainAll` | internal/scanner/evaluate.go:168-211 | tries to record the rule once if the first occurrence of every keyword counts |
| `KeywordEval.LineScan.EvalIndexed` | internal/scanner/evaluate.go:98-167 | any-logic tries to record every hit that counts, all-logic the rule once if every own keyword has one |
| `KeywordEval.LineScan.EvalKeywords` | internal/scanner/evaluate.go:96-248 | chooses the indexed path for a case-insensitive rule when there are hits, else the plain one; returns whether anything was added |
| `KeywordEval.LineScan.EvaluateLine` | internal/scanner/evaluate.go:11-35 | all rules in order over one line and its hits, under one set of formatted keys |
| `LongLineKeywords.EvaluateLongLine` | internal/scanner/evaluate.go:336-357 | all segments under one set of formatted keys; if no two rule ids clash on the line, a rule becomes reported if and only if it matches in some segment |
| `KeywordReports.RuleAttemptsMeaning` | internal/scanner/evaluate.go:96-248 | something is tried for a rule if and only if the rule matches; with any-logic each try names an occurrence and its column |
| `KeywordReports.NoteAllExact` | internal/scanner/evaluate.go:119-134 | without clashing ids exactly what was tried is reported, and every key stays backed by a violation of its own rule |
| `KeywordReports.EvaluationReports` | internal/scanner/evaluate.go:11-35 | without clashing ids exactly the rules matching in some text become reported, and no other line changes |
| `KeywordReports.AlwaysExactIff` | internal/scanner/evaluate.go:119-151 | for all rules with given ids, patterns and texts, evaluation on a line is exact if and only if no two ids clash |
| `KeywordReports.ClashLoses` | internal/scanner/evaluate.go:119-123 | any two clashing ids have rules and a text on which one rule is lost |
| `KeywordReports.SuppressedRule` | internal/scanner/evaluate.go:228-231 | a concrete pair of rules of which the second matches and is not reported |
| `KeywordReports.EvaluationKeepsOtherLines` | internal/scanner/evaluate.go:119-134 | evaluating one line, clash or not, says nothing about another |
| `LongLineKeywords.MatchedInSegments` | internal/scanner/evaluate.go:347-355 | the rules found are those matching in some segment |
| `LongLineKeywords.SegmentMatchIff` | internal/scanner/evaluate.go:347-355 | without whole words an any-logic rule is found on a line of any length if and only if one of its occurrences lies whole in a segment |
| `LongLineKeywords.SegmentMatchIsGenuine` | internal/scanner/evaluate.go:347-355 | without whole words a rule found in a segment matches the line |
| `LongLineKeywords.InventedIff` | internal/scanner/evaluate.go:101-136 | an indexed any-logic rule is reported on a line it does not match if and only if no occurrence of a pattern counts in the line, whole words are required, and an occurrence touches a segment edge inside the line with a word character across it |
| `LongLineKeywords.CountsUnlessTorn` | internal/scanner/evaluate.go:104-111 | what counts in a segment counts in the line, except for a whole-word rule at an edge with a word character across it |
| `LongLineKeywords.NeverInventsIff` | internal/scanner/evaluate.go:101-136 | with any index, a match in a segment always is a match in the line if and only if whole words are not required or every keyword and lower-case indexed pattern the rule looks for is longer than a segment; for any-logic rules that are case-sensitive, indexed, or without an index |
| `LongLineKeywords.CutMakesWord` | internal/scanner/evaluate.go:347-355 | otherwise there is a line in which nothing counts and a segment of it that the rule matches |
| `LongLineKeywords.CatReadAsAt` | internal/scanner/evaluate.go:104-111 | a concrete line and cut on which a whole word is invented, for a rule about another word |
| `InputScan.EvaluateLines` | internal/scanner/io.go:203 | evaluating numbered lines reports exactly the matching rules on each line whose number lets no ids clash |
| `InputScan.ScanInput` | internal/scanner/io.go:170-238 | however the input is cut into reads, a completed scan reports on each line of the input exactly the rules matching there; a quarantined one does so for the lines closed before the piece that passes the limit; each of the five outcomes under its own condition |
| `LongLineKeywords.LongLineFindsKeyword` | internal/scanner/evaluate.go:336-357 | an indexed keyword that counts in a line of any length, whole word or not, is found in whichever segment shows it |
| `Keywords.IndexedCoversPlain` | internal/scanner/evaluate.go:98-167 | with its keywords indexed, a rule the plain path reports is reported by `evalKeywords` |
| `Keywords.LowerHasNoCapitals` | internal/scanner/evaluate.go:12 | lower-casing leaves no ASCII capital and changes nothing else |
| `Keywords.SameLowerIff` | internal/scanner/evaluate.go:12 | two lines are lower-cased alike if and only if they are equal up to the case of ASCII letters |
| `Keywords.CaseIgnored` | internal/scanner/evaluate.go:170-176 | a case-insensitive rule matches both of two such lines or neither |
| `Keywords.CaseKept` | internal/scanner/evaluate.go:213-219 | a case-sensitive any-logic rule without whole words matches if and only if a keyword occurs as written |
| `Keywords.WordCharacters` | internal/scanner/util.go:9-20 | word characters are exactly the ASCII letters in both cases, the digits, underscore and hyphen |
| `Keywords.IndexedAllIsExact` | internal/scanner/evaluate.go:137-144 | all-logic on the index holds if and only if every own keyword has a counted occurrence |
| `Keywords.IndexedAnyExactIff` | internal/scanner/evaluate.go:101-118 | a case-insensitive any-logic rule is found in exactly the lines with one of its keywords if and only if every pattern in lower case contains one |
| `Keywords.FirstIsEnoughIff` | internal/scanner/evaluate.go:219-227 | testing the first occurrence finds a keyword in every text that has it if and only if whole words are not required |
| `Keywords.PlainMissesLaterWord` | internal/scanner/evaluate.go:219-227 | a concrete text with a whole word the plain path misses |
| `DedupKeys.DecimalInjective` | internal/scanner/evaluate.go:119 | decimal numbers are read back uniquely |
| `DedupKeys.ShareKeyIff` | internal/scanner/evaluate.go:119-151 | two ids have a common formatted key on line n if and only if they are equal or one is the other followed by bar, n, bar, kw and then nothing or a bar |
| `DedupKeys.KeysInjective` | internal/scanner/evaluate.go:119-151 | on one line, keys of ids that do not continue each other are equal only for the same key |
| `DedupKeys.NoBarNoClash` | internal/scanner/evaluate.go:119-151 | ids without a bar never clash |
| `DedupKeys.KeysCollide` | internal/scanner/evaluate.go:228 | a whole family of pairs of rules that share a key |
| `Checksums.LuhnCheck` | internal/scanner/verifiers.go:11-35 | depends only on the digit subsequence: 13 to 19 digits, and the sum in which every digit with an odd number of digits to its right is doubled and digit-summed is divisible by ten |
| `Checksums.LuhnDetectsChange` | internal/scanner/verifiers.go:21-34 | every single-digit change of a valid number is detected |
| `Checksums.LuhnSwapUndetectedIff` | internal/scanner/verifiers.go:21-34 | an adjacent swap goes unnoticed if and only if the digits are equal or are 0 and 9 |
| `Checksums.NormalizeLoop` | internal/scanner/verifiers.go:102-112 | separators dropped, letters upper-cased |
| `Checksums.NormalizeByCharacter` | internal/scanner/verifiers.go:102-112 | blanks, tabs and hyphens are dropped, small letters become capitals, all else stays, in place |
| `Checksums.DigitsByCharacter` | internal/scanner/verifiers.go:12-17 | every ASCII digit counts with its value and nothing else counts |
| `Checksums.FoldChunk` | internal/scanner/verifiers.go:141-143 | folding a character's digits gives the remainder of the appended number |
| `Checksums.Itoa2` | internal/scanner/verifiers.go:191-196 | two digits spelling the value |
| `Checksums.IbanValid` | internal/scanner/verifiers.go:101-146 | the iterative remainder equals that of the whole rearranged decimal expansion modulo 97 |
| `Checksums.IbanDetectsChange` | internal/scanner/verifiers.go:122-145 | any digit-for-digit or letter-for-letter change of a valid IBAN is detected |
| `Checksums.IbanCheckDigits` | internal/scanner/verifiers.go:122-145 | between 02 and 98 exactly one pair of check digits makes an account number valid: 98 less the remainder of the number spelled with 00 |
| `Checksums.IbanDetectsSwap` | internal/scanner/verifiers.go:122-145 | any swap of unequal adjacent digits is detected, also across the rearrangement point |
| `Checksums.IbanTypoDetected` | internal/scanner/verifiers.go:101-146 | the same for one mistyped character of the scanned text, separators and case aside |
| `Checksums.OrderOfTen` | internal/scanner/verifiers.go:128-145 | the order of ten modulo 97 is 96, longer than any expanded IBAN |
| `Backoff.FullJitter` | internal/backoff/backoff.go:13-28 | the wait is drawn below the smaller of cap and base times two to the attempt, with the defaults filled in, and stays within [0, cap) even when the 64-bit shift overflows |
| `Backoff.EqualJitter` | internal/backoff/backoff.go:33-40 | sleeps within [half, 2 half) if and only if the clamped bound is at least two, and panics otherwise |
| `Backoff.SubscriberBackoff` | internal/infrastructure/messaging/nats/subscriber.go:185-189 | for one to five failures the bound is between 2s and 30s without overflow |
| `Backoff.LargeAttemptPanics` | internal/backoff/backoff.go:34-39 | attempt 34 overflows to a negative bound |
| `Subscriber.TenantState.constructor` | internal/infrastructure/messaging/nats/subscriber.go:49-57 | an empty ring, version 0 |
| `Subscriber.TenantState.EvictExpired` | internal/infrastructure/messaging/nats/subscriber.go:61-67 | clears exactly the expired slots and keeps the ring faithful to the applied updates |
| `Subscriber.TenantState.IsDuplicate` | internal/infrastructure/messaging/nats/subscriber.go:60-76 | under a monotone clock, true if and only if one of the last updates within capacity has that hash and is not older than the eviction time |
| `Subscriber.TenantState.AddRecent` | internal/infrastructure/messaging/nats/subscriber.go:79-87 | the ring remembers the new update and forgets only the one a full turn back |
| `Subscriber.TenantState.Process` | internal/infrastructure/messaging/nats/subscriber.go:303-331 | stale and duplicate exactly by their conditions; only an applied update changes versions, which strictly increase |
| `Subscriber.EvictKeeps` | internal/infrastructure/messaging/nats/subscriber.go:61-67 | lazy eviction forgets nothing that could still count |
| `Subscriber.DuplicateIff` | internal/infrastructure/messaging/nats/subscriber.go:69-75 | searching the ring answers the question about the applied history |
| `Subscriber.AddKeeps` | internal/infrastructure/messaging/nats/subscriber.go:79-87 | writing the next slot keeps the ring faithful |
| `Subscriber.DeleteNoticesAreStale` | internal/application/services/rulepacks.go:327 | the last applied version is never negative, so notices with version -1 are dropped |
| `Subscriber.FailuresBounded` | internal/infrastructure/messaging/nats/subscriber.go:172-272 | the failure counter never exceeds five |
| `Subscriber.FailuresAreSinceSuccess` | internal/infrastructure/messaging/nats/subscriber.go:172-272 | the failure counter is the number of passes since the last read that succeeded, up to five |
| `Subscriber.ReceiveLoop` | internal/infrastructure/messaging/nats/subscriber.go:172-272 | whatever each pass draws, the waits are exactly those the breaker, the backoff and the backlog demand, and the generator never panics |
| `Subscriber.OnePass` | internal/infrastructure/messaging/nats/subscriber.go:184-272 | one pass: its waits and the next failure count |
| `Subscriber.WaitsInRange` | internal/infrastructure/messaging/nats/subscriber.go:185-264 | every wait is within [10ms, 30s), and within [1s, 30s) unless more than 1000 messages are pending |
| `Subscriber.NewTenant` | internal/infrastructure/messaging/nats/subscriber.go:287-291 | a new tenant has ten slots and thirty seconds |
| `Subscriber.SeenMeans` | internal/infrastructure/messaging/nats/subscriber.go:60-76 | for such a tenant a duplicate is one of the last ten applied updates, at most 30s old |
| `AssignmentCache.KeyFacts` | internal/infrastructure/persistence/postgres/redis_policy_assignment_cache.go:41-47 | collection keys are injective, disjoint, and carry their tenant's prefix |
| `AssignmentCache.Repository.constructor` | internal/infrastructure/persistence/postgres/redis_policy_assignment_cache.go:26-35 | an empty cache is coherent |
| `AssignmentCache.Repository.InvalidateTenantCollections` | internal/infrastructure/persistence/postgres/redis_policy_assignment_cache.go:273-287 | scan and delete removes exactly the keys with the tenant's prefix |
| `AssignmentCache.Repository.CreateAssignment` | internal/infrastructure/persistence/postgres/redis_policy_assignment_cache.go:53-63 | upsert, then invalidate; a failed write changes nothing |
| `AssignmentCache.Repository.UpdateAssignment` | internal/infrastructure/persistence/postgres/redis_policy_assignment_cache.go:166-185 | the row keeps its tenant; both the named and the old tenant are invalidated when the old row was read |
| `AssignmentCache.Repository.DeleteAssignment` | internal/infrastructure/persistence/postgres/redis_policy_assignment_cache.go:187-207 | the row goes, its tenant is invalidated when the row was read |
| `AssignmentCache.Repository.DeletePolicyOfTenant` | internal/infrastructure/persistence/postgres/redis_policy_assignment_cache.go:209-223 | all rows of tenant and policy go, the tenant is invalidated |
| `AssignmentCache.Repository.ListTenant` | internal/infrastructure/persistence/postgres/redis_policy_assignment_cache.go:90-113 | hit or miss, the answer is what Postgres would return |
| `AssignmentCache.Repository.ListScope` | internal/infrastructure/persistence/postgres/redis_policy_assignment_cache.go:141-164 | the same for the enabled rows of a scope |
| `AssignmentCache.InvalidateKeeps` | internal/infrastructure/persistence/postgres/redis_policy_assignment_cache.go:273-287 | changing one tenant's rows is safe once its collections are dropped |
| `AssignmentCache.CreatedIsListed` | internal/infrastructure/persistence/postgres/assignments.go:32-35 | after a create the tenant lists an assignment with the given target, priority and flag, and the scope lists it if and only if it is enabled |
| `AssignmentCache.UpdatedIsListed` | internal/infrastructure/persistence/postgres/assignments.go:136-153 | after an update the row shows the new scope, priority and flag under its old tenant and policy |
| `AssignmentCache.DeletedIsGone` | internal/infrastructure/persistence/postgres/assignments.go:155-165 | a deleted row is listed nowhere and every other row stays |
| `AssignmentCache.PolicyIsGone` | internal/infrastructure/persistence/postgres/assignments.go:167-174 | deleting a policy of a tenant removes exactly that tenant's rows of that policy |
| `AssignmentCache.ScopeRowsAre` | internal/infrastructure/persistence/postgres/assignments.go:111-115 | a scope lists the tenant's enabled rows with that scope |
| `AssignmentCache.StepKeepsCoherent` | internal/infrastructure/persistence/postgres/redis_policy_assignment_cache.go:53-223 | every operation keeps each cached list equal to Postgres's answer, unless its preliminary read failed for a row that is there and, for an update, belongs to another tenant than the one named |
| `AssignmentCache.HistoryKeepsCoherent` | internal/infrastructure/persistence/postgres/redis_policy_assignment_cache.go:53-287 | so does every sequential history of such operations |
| `AssignmentCache.BlindDeleteCoherentIff` | internal/infrastructure/persistence/postgres/redis_policy_assignment_cache.go:188-204 | a delete after a failed read keeps the cache right if and only if no cached list shows the row |
| `AssignmentCache.StaleAfterBlindDelete` | internal/infrastructure/persistence/postgres/redis_policy_assignment_cache.go:187-204 | listing a tenant and then deleting its one assignment after a failed read leaves the assignment in the cached list |
| `AssignmentCache.BlindUpdateCoherentIff` | internal/infrastructure/persistence/postgres/redis_policy_assignment_cache.go:167-182 | an update under a wrong tenant after a failed read keeps the cache right if and only if no list showing the old or new row is cached |

## Left out

- Redis, Postgres, Kafka, gRPC, HTTP, YAML and JSON encoding and the file system: maps, sequences and parameters stand for them.
- Regular expressions, semantic rules, redaction patterns and literal-token gating: the scan outcome, the redactor and the pattern check are function parameters.
- InputScan.ScanInput: bytes are read as characters one to one, which is exact for ASCII text.
- First-match mode, rule contexts (`when`, `unless`) and column numbers on long lines, where columns count from the segment start.
- Response-side decisions, header handling, the leak heuristic, stream slots and the rate limiter of the ext_proc loop; both directions use the same window code, which is modelled once.
- Scan timeouts and the memory ceiling.
- Remote and marketplace imports: packs have a source path.
- Non-ASCII digits, letters and case folding.
- Rounding of floating-point latencies and rates: reals are exact.
- Width of 64-bit counters, except in `Backoff` where overflow decides the outcome.
- The last-minute count of the decision log's statistics, lookup by request id, and that statistics read records and counters under two separate locks.
- Job recovery after a restart, `Stop`, job metadata and the read-only `Get` and `List`.
- Jobs.Manager.FinishJob: job objects are values in a map that stands for the heap, so pointer identity of a job is its id.
- Audit.TamperEvident: the digest is an ideal function of the canonical tree, without collisions and never empty; JSON text and SHA-256 are not modelled.
- Audit.FileLogger.Log: the digest and whether the encoder accepted the event are arguments.
- Aho.FindAll: the external matcher is an argument assumed to return the patterns that occur.
- PriorityMerge.PatchOnePack: rules patched in place through `out[i]` are updates of a sequence value.
- Subscriber messages without a tenant id, malformed messages and the dead-letter queue, acknowledgements, and recovery of pending messages.
- Assignment lookup by id and listing by policy, whose keys not every write maintains; Redis failures; cascading deletes in Postgres.
- AssignmentCache.Repository.ListTenant: the row order of a query is any fixed function of its row set, so ties in the sort key are not resolved further.
- AssignmentCache.HistoryKeepsCoherent: histories are sequential, as a read racing a write can cache an old list.
