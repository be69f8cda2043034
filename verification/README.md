# OSimFlow: verified models of the campaign coordination code

OSimFlow runs campaigns of building simulations on many workers. This project models the
parts of it that keep shared state consistent or transform a user's input, and proves what
they keep. One Dafny module follows one component of the source.

| files | component |
|---|---|
| `Documents`, `DocumentLaws`, `WhereClause` | the document filter and update language, and its translation to SQL with three-valued logic |
| `RedisDocumentStore`, `RedisStoreLaws`, `ConcurrentInsert`, `SoloInsert` | the Redis document store: unique-index slots, rollback and LRU per operation, inserts interleaved command by command, and the two models of an insert joined |
| `CircuitBreaking` | the circuit breaker under arbitrary interleaving of callers, with time |
| `SqliteCache`, `DistributedCache`, `CacheOutage`, `CacheProtocol` | the local cache table, its coupling to the shared hash, and N processes with delayed broadcasts |
| `DataPoints`, `DataPointEffects`, `ReanalysisIds`, `DataPointProtocol` | data-point operations, which tables a reanalysis can damage, and processes that share one state file under a lock and may crash |
| `OswTable`, `OswReadings`, `OswLookup`, `OswPreflight`, `OswVerdicts`, `OswMutation` | the name table of an OpenStudio workflow, what it resolves to, the preflight checks, and the writes |
| `RelativePaths`, `InputStaging`, `Stager`, `PathRemapping` | staging files for a worker and rebuilding them, and the two-way path map |
| `SafeEval`, `SafeEvalLaws` | the expression validator, the guarded interpreter, and Python's own reading |
| `Text`, `Wrappers` | numerals and joined strings; optional values |

Code that changes state is written as classes and methods with loops, each tied to a function
of the old state; protocols are step machines whose theorems quantify over every run. What
the environment decides (clock readings, whether a Redis command went through, what a
download returns, which files exist, hash and coercion functions) is a parameter.

Where the source does not do what its documentation says, the model follows the code, shows
the failing case, and states exactly when the promise holds:

- the two document backends differ on `$ne` and non-empty `$nin` over a missing key (`WhereClause.AgreeIffNegatedKeysPresent`);
- `insert_one` does not release slots claimed before a refusal, so an exact index stays exact precisely when nothing leaks (`ConcurrentInsert.IndexExactIffNothingLeaked`); a retry under the same id is then refused by its own slot (`ConcurrentInsert.LeakRefusesRetry`), and a refusal names a real duplicate exactly when the id did not hold the slot before (`ConcurrentInsert.DuplicateIsGenuineIff`);
- an automatic id replaces a document exactly when a client stored an id that imitates one to come (`RedisStoreLaws.BatchesAddIffCovered`), and an insert over an existing id leaves that document's unique slots behind (`RedisStoreLaws.InsertKeepsExactIff`);
- warming the LRU keeps it right exactly when the hash holds the document under its own id (`RedisDocumentStore.WarmingIsRightIff`);
- the document store asks its breaker twice per command, so a circuit that is not closed can close again exactly if a command is still under way, or the half-open admission is unused and some caller's next ask is for a command (`CircuitBreaking.DoubleGateRecoversIff`); holding a client is not enough (`CircuitBreaking.SecondClientIsTheProbe`);
- a broadcast works exactly when it leaves no name empty (`CacheProtocol.BroadcastWorksIffNamed`); a store that misses Redis, and a shared delete that is not broadcast, break the coherence of the tables under exact conditions (`CacheProtocol.MissedStoreBreaksIff`, `CacheProtocol.SilentDeleteBreaksIff`);
- a hit is the newest output exactly when the process held no older usable copy (`CacheProtocol.FreshPeerSeesNewest`);
- a reanalysis keeps every other point exactly when its id is free, and some run lets it replace one exactly when the table holds an id its parent can still hand out (`DataPoints.ReanalysisAddsIffIdFree`, `ReanalysisIds.OverwritableIffClashing`);
- the name table of a workflow is right exactly when no key can be read in two declared ways (`OswLookup.TableIsRightIff`), and an ambiguity lists a step twice exactly for a `__SKIP__` that `measure.xml` declares as well (`OswLookup.LabelsRepeatIff`);
- preflight does not see two keys of an argument whose name is empty or ends in a dot (`OswPreflight.SoundIffNoBlindPair`);
- scratch paths come back from controller paths exactly when no mapped root is nested in another (`PathRemapping.ScratchRoundTripsIffUnnested`);
- an `and` or `or` used as a value is Python's exactly when Python's operand is a boolean (`SafeEval.BoolValueAgreesIffBoolean`), as it is for comparisons, negations and boolean constants (`SafeEval.BooleanOperandsAgree`).

## Model

| member | source | states |
|---|---|---|
| Documents.OpApplied | osimflow/_document_store_base.py:82-118 | one operator moves exactly the fields it names, whatever the order of its operands |
| Documents.MutableDoc.ApplyOp | osimflow/_document_store_base.py:82-118 | the in-place loop over the operands has the effect of moving all named fields at once |
| Documents.MutableDoc.ApplyUpdateOperators | osimflow/_document_store_base.py:127-147 | the operators act one after the other; unknown ones do nothing |
| Documents.UpdateFrame | osimflow/_document_store_base.py:127-147 | a field no operator names keeps its value, so `_id` survives ordinary updates |
| Documents.PushThenPull | osimflow/_document_store_base.py:101-118 | pulling a value just pushed restores a list that did not hold it |
| DocumentLaws.SetAndUnset | osimflow/_document_store_base.py:82-90 | `$set` leaves exactly the value, `$unset` removes exactly the field, and together they undo each other on an absent field |
| DocumentLaws.IncAdds | osimflow/_document_store_base.py:93-98 | `$inc` leaves the sum, starts an absent field at the increment, and leaves every non-number alone |
| DocumentLaws.PushAppends | osimflow/_document_store_base.py:101-107 | `$push` appends, starts an absent field with one item, and leaves other values alone |
| DocumentLaws.PullRemoves | osimflow/_document_store_base.py:110-114 | `$pull` takes every occurrence out of a list and keeps the stretches between them in order |
| DocumentLaws.UpdatesCompose | osimflow/_document_store_base.py:127-147 | two updates in a row are one update with the operators of both |
| DocumentLaws.IncsAddUp | osimflow/_document_store_base.py:93-98 | any number of increments, over any number of updates, add up |
| DocumentLaws.OrderingsCompare | osimflow/_document_store_base.py:179-210 | `$gt`, `$gte`, `$lt` and `$lte` compare the stored number, on the left, with the operand; a missing field is in no order and a text raises |
| DocumentLaws.MembershipCompares | osimflow/_document_store_base.py:179-219 | a bare value, `$eq`, `$ne`, `$in`, `$nin` and `$exists` in terms of the stored value, a missing field reading as null |
| DocumentLaws.MatchesIffAllHold | osimflow/_document_store_base.py:179-225 | a document matches if and only if every operator of every field key holds, keys with a `$` being passed over |
| WhereClause.BuildWhereClause | osimflow/_document_store_sqlite.py:103-151 | the first invalid key is refused; otherwise conditions and bound parameters grow in step into the compiled clause |
| WhereClause.FirstBadKeyIs | osimflow/_document_store_sqlite.py:124-132 | the key a filter is refused for is the first that is not an identifier, and there is one exactly when some key is not |
| WhereClause.ValidKeyIs | osimflow/_document_store_base.py:31-56 | by character codes: a letter or underscore, then letters, digits, underscores and dots, with at most one newline at the end |
| WhereClause.ConcatBinds | osimflow/_document_store_sqlite.py:103-151 | joining two clauses keeps every placeholder bound to its own parameter |
| WhereClause.HandlerAgrees | osimflow/_document_store_sqlite.py:30-100 | under three-valued logic an operator's SQL is true exactly when the client-side operator holds and no NULL met the comparison |
| WhereClause.ClauseAgrees | osimflow/_document_store_sqlite.py:103-151 | the same for all operators of one key |
| WhereClause.CompiledAgrees | osimflow/_document_store_sqlite.py:103-151 | the same for every filter, by induction on its keys |
| WhereClause.BackendsAgreeExactly | osimflow/_document_store_base.py:155-225 | SQL returns a document if and only if the client-side filter does and the filter is NULL-safe on it |
| WhereClause.AgreeIffNegatedKeysPresent | osimflow/_document_store_base.py:155-225 | with non-null operands SQL never returns too much, and the backends agree if and only if a matching document has every negated key |
| WhereClause.NeMissingKeyDisagrees | osimflow/_document_store_sqlite.py:35-37 | a document without the key matches `$ne` in Redis and not in SQLite |
| RedisDocumentStore.OwnedIsUnique | osimflow/document_store.py:477-509 | when every document owns its slots, no two documents of a collection share a unique value |
| RedisDocumentStore.LruPut | osimflow/document_store.py:373-384 | a put never takes the LRU over its limit and adds nothing but its entry |
| RedisDocumentStore.LruPutIs | osimflow/document_store.py:368-384 | the entry put is found again, and another is lost only to make room, the oldest first; a limit of zero keeps nothing |
| RedisDocumentStore.LruDropIs | osimflow/document_store.py:386-402 | a write to a collection drops its cached documents and keeps those of the others |
| RedisDocumentStore.Store.ClaimSlot | osimflow/document_store.py:477-509 | a slot is taken exactly when it was free |
| RedisDocumentStore.Store.ReleaseSlot | osimflow/document_store.py:511-536 | a slot is freed only by its owner |
| RedisDocumentStore.Store.InsertOne | osimflow/document_store.py:552-602 | it succeeds exactly when no needed slot is taken and the write goes through, and each failure has its exact condition; an automatic id is the next of its collection, and while the counter covers the stored ids the insert adds a document and replaces none; a failed write restores the index, a refused claim changes no document |
| RedisDocumentStore.AutoIdIsFresh | osimflow/document_store.py:434-441 | while no stored id is an automatic one still to come, the next automatic id is new, the insert adds one document, and the counter still covers |
| RedisStoreLaws.OwnIdKeepsCoveredIff | osimflow/document_store.py:552-561 | a client's own `_id` keeps it so if and only if it does not imitate an automatic id to come |
| RedisStoreLaws.BatchesAddIffCovered | osimflow/document_store.py:552-561 | any number of automatic inserts add as many documents if and only if no stored id imitates one to come |
| RedisStoreLaws.RefusedIffDuplicateValue | osimflow/document_store.py:477-509 | with an exact index an insert is refused if and only if a stored document has the same non-null value in a unique field |
| RedisStoreLaws.InsertKeepsExactIff | osimflow/document_store.py:552-602 | a successful insert keeps the index exact if and only if it does not replace a document that held a unique value |
| RedisStoreLaws.IdFilterIs | osimflow/document_store.py:604-646 | only the filters `{"_id": <text>}` go by key |
| RedisDocumentStore.Store.ClaimAll | osimflow/document_store.py:566-576 | the claim loop grants all needed slots or stops at one already taken, keeping what it had |
| RedisDocumentStore.Store.ReleaseAll | osimflow/document_store.py:582-591 | rollback after a failed write gives back exactly what this insert claimed |
| RedisDocumentStore.Store.UpdateOne | osimflow/document_store.py:694-788 | the filtered document is replaced and its slots moved exactly when no claimed slot is taken and the write goes through; otherwise documents, index and LRU are exactly as before, with the matching error |
| RedisDocumentStore.Store.UpdateFound | osimflow/document_store.py:725-788 | the same once the document is found |
| RedisDocumentStore.Store.MoveSlots | osimflow/document_store.py:736-763 | the claim loop remembers precisely what a rollback must undo |
| RedisDocumentStore.Store.RollBack | osimflow/document_store.py:764-784 | undoing the remembered claims and releases restores the index exactly |
| RedisDocumentStore.Store.Replace | osimflow/document_store.py:736-788 | after the operators: move all slots and write, or leave everything unchanged; success and both errors are characterised |
| RedisDocumentStore.SlotsMoved | osimflow/document_store.py:736-763 | after the loop over all indexes the slots are those of the old index minus the given-up values plus the new ones |
| RedisDocumentStore.MovedKeepsOwned | osimflow/document_store.py:734-788 | the finished update leaves every document, the updated one included, with its slots |
| RedisStoreLaws.UpdateRefusedIffShared | osimflow/document_store.py:736-763 | with an exact index an update is refused if and only if another document has one of its values |
| RedisStoreLaws.UpdateKeepsExact | osimflow/document_store.py:734-788 | a successful update keeps the index exact |
| RedisDocumentStore.InsertKeepsOwned | osimflow/document_store.py:552-602 | a successful insert keeps slot ownership for every document |
| RedisDocumentStore.Store.DeleteOne | osimflow/document_store.py:790-855 | exactly the designated document goes, with every indexed slot that points at it, and no other slot; it fails only if the delete fails or the filter cannot be compared |
| RedisDocumentStore.DeleteKeepsOwned | osimflow/document_store.py:790-855 | the remaining documents keep their slots |
| RedisStoreLaws.DeleteKeepsExact | osimflow/document_store.py:790-855 | a deletion keeps the index exact |
| RedisDocumentStore.Store.CreateIndex | osimflow/document_store.py:857-889 | a unique index is created exactly when the existing documents can own its slots, in whatever order they are adopted; other fields' slots are untouched |
| RedisDocumentStore.AdoptedIsOwned | osimflow/document_store.py:857-889 | adopting all documents establishes ownership for the new index |
| RedisDocumentStore.NotAdoptable | osimflow/document_store.py:857-889 | a refused adoption means no order of adoption could have succeeded |
| RedisStoreLaws.AdoptableIffDistinct | osimflow/document_store.py:857-889 | without old slots of the field a unique index can be created if and only if no two documents share a value |
| RedisStoreLaws.CreatedIndexIsExact | osimflow/document_store.py:857-889 | the index created then is exact |
| RedisDocumentStore.Store.FindOne | osimflow/document_store.py:604-646 | through the LRU, a lookup by `_id` returns what an uncached read would; a scan returns a match, finds there is none, or fails on a document it cannot compare; the entry the LRU gains is stated |
| RedisDocumentStore.Store.WarmLru | osimflow/document_store.py:676-682 | the LRU receives the matched documents in order under their own ids, and stays coherent if the hash holds each under its own id |
| RedisDocumentStore.WarmingIsRightIff | osimflow/document_store.py:676-682 | warming with a document keeps the LRU coherent if and only if the hash holds it under its own id |
| RedisDocumentStore.IdedStoreWarms | osimflow/document_store.py:676-682 | where documents lie under their own ids, any result list warms the LRU rightly |
| ConcurrentInsert.StepKeepsInv | osimflow/document_store.py:477-602 | each single Redis command of any process keeps document ownership and what every call holds, lost or keeps apart |
| ConcurrentInsert.ConcurrentUniqueness | osimflow/document_store.py:477-602 | from any store whose documents own their slots, leaked slots and stored ids included, in every interleaving of any number of inserts, failures included, stored documents own their slots and no two share a unique value |
| ConcurrentInsert.DuplicateIsGenuineIff | osimflow/document_store.py:477-509 | in every run a refusal meets a slot of another id if and only if the call's own id did not hold that slot before the run |
| ConcurrentInsert.LeakRefusesRetry | osimflow/document_store.py:566-576 | whatever ran after a leaking refusal, a retry under the same id that claims the leaked value first is refused by its own slot |
| ConcurrentInsert.IndexExactIffNothingLeaked | osimflow/document_store.py:552-602 | from an exact index and new ids, once all inserts ended, every slot belongs to a stored document if and only if no call was refused after a claim and no release failed |
| ConcurrentInsert.RunKeepsExactInv | osimflow/document_store.py:552-602 | from such a start every slot at every moment belongs to an old document, a call that holds it, or a failed release |
| ConcurrentInsert.DuplicateIsFinal | osimflow/document_store.py:566-576 | a refused insert does nothing more |
| ConcurrentInsert.LeakIsPermanent | osimflow/document_store.py:566-576 | from any such store, a slot claimed before the refusal stays taken in every continuation, and no document under its id ever holds the value |
| SoloInsert.OwnershipIsTheSame | osimflow/document_store.py:477-602 | the ownership invariant of the command-level model is that of the operation-level one |
| SoloInsert.SoloRunIsInsertOne | osimflow/document_store.py:552-602 | a call that runs alone ends, for every outcome of its write, as `InsertOne` promises |
| SoloInsert.WantedIsNeeded | osimflow/document_store.py:566-571 | both models claim the same slots and refuse in the same states |
| CircuitBreaking.CircuitBreaker.EffectiveState | osimflow/circuit_breaker.py:111-118 | reading the state applies the cooldown and nothing else |
| CircuitBreaking.CircuitBreaker.Allow | osimflow/circuit_breaker.py:120-150 | admits when closed, or one probe when half-open |
| CircuitBreaking.CircuitBreaker.RecordSuccess | osimflow/circuit_breaker.py:161-173 | closes the circuit and forgets the failures |
| CircuitBreaking.CircuitBreaker.RecordFailure | osimflow/circuit_breaker.py:184-202 | counts, and opens at the threshold or after a failed probe |
| CircuitBreaking.StateTracksHistory | osimflow/circuit_breaker.py:111-202 | over every history the circuit is closed if and only if fewer than threshold failures followed the last success; a probe in flight implies half-open |
| CircuitBreaking.ProbesAreSeparatedByOutcome | osimflow/circuit_breaker.py:120-150 | between two half-open admissions an outcome was recorded |
| CircuitBreaking.OutageIsPaced | osimflow/circuit_breaker.py:111-202 | during an outage the breaker's state reflects how much time its admissions must have taken |
| CircuitBreaking.KthProbeIsLate | osimflow/circuit_breaker.py:111-202 | from an open circuit, the k-th call admitted comes no earlier than k cooldowns after the recorded opening time |
| CircuitBreaking.ProbeBudget | osimflow/circuit_breaker.py:111-202 | from an open circuit, at most floor(T / cooldown) calls are admitted within T of the recorded opening time, whatever callers and late failure reports do |
| CircuitBreaking.ClosedAdmitsUntilStreak | osimflow/circuit_breaker.py:184-202 | before the streak is complete every call is admitted; a failure opens the circuit if and only if it completes the streak |
| CircuitBreaking.RefusedUntilCooldown | osimflow/circuit_breaker.py:111-202 | after the failure event that opened the circuit at t0 a call is admitted if and only if it comes at t0 + cooldown or later, and a second one is not |
| CircuitBreaking.LateFailure | osimflow/circuit_breaker.py:184-202 | a failure reported while open restarts the cooldown if a streak had opened the circuit, and does not after a failed probe unless the threshold is one |
| CircuitBreaking.KthProbeAfterOpening | osimflow/circuit_breaker.py:111-202 | the k-th call admitted after the failure event at t0 comes no earlier than t0 + k cooldowns |
| CircuitBreaking.BudgetAfterOpening | osimflow/circuit_breaker.py:111-202 | at most floor(T / cooldown) calls are admitted within T of the failure event that opened the circuit |
| CircuitBreaking.BudgetIsAttained | osimflow/circuit_breaker.py:111-202 | a caller that asks each time the cooldown is over is admitted k times in k cooldowns, so the bound is sharp |
| CircuitBreaking.SingleGateRecovers | osimflow/circuit_breaker.py:111-202 | from any open state a caller that asks once and reports success closes the circuit |
| CircuitBreaking.DoubleGateRecoversIff | osimflow/document_store.py:126-157 | a circuit that is not closed can close again if and only if a command is under way, or the half-open admission is unused and some caller's next ask is for a command |
| CircuitBreaking.SecondClientIsTheProbe | osimflow/document_store.py:443-446 | a caller that holds a client but asks for another one next uses up the admission, and the circuit never closes |
| CircuitBreaking.DoubleGateNeverRecovers | osimflow/document_store.py:306-346 | callers that all ask for a client next never get a command through |
| SqliteCache.StrategiesReturnSameRows | osimflow/cache.py:665-755 | the tuple-IN query and the temporary-table join return the same rows, each once, for any key list |
| SqliteCache.DictOfSelection | osimflow/cache.py:344-370 | the dictionary built from either result holds each requested key's own row |
| SqliteCache.HitIff | osimflow/cache.py:549-583 | a hit is the row of the key with exit code 0 and its output on disk; a miss means there is no such row |
| SqliteCache.SQLiteCache.Lookup | osimflow/cache.py:549-583 | a hit is a row with exit code 0 whose output exists; exactly one counter moves |
| SqliteCache.SQLiteCache.RawHits | osimflow/cache.py:627-755 | on both sides of the threshold the batch read finds what single selects find |
| SqliteCache.SQLiteCache.LookupMany | osimflow/cache.py:585-663 | every requested key, repeated or not, gets the answer `lookup` would give; counters move once per distinct key |
| SqliteCache.BatchCountsLikeLookups | osimflow/cache.py:585-663 | the batch counts what one `lookup` per distinct key would have counted |
| SqliteCache.Distinct | osimflow/cache.py:618-626 | the first occurrence of each key, in order |
| SqliteCache.FirstsAreInOrder | osimflow/cache.py:618-626 | the kept keys stand at rising positions where they had not occurred before |
| SqliteCache.SQLiteCache.Store | osimflow/cache.py:757-800 | one entry is replaced or added, the primary key stays unique |
| SqliteCache.SQLiteCache.InvalidateStep | osimflow/cache.py:802-810 | exactly the step's entries go, and their number is returned and counted |
| SqliteCache.SQLiteCache.InvalidateSample | osimflow/cache.py:812-822 | exactly the sample's entries go, and their number is returned and counted |
| SqliteCache.InvalidationLeaves | osimflow/cache.py:802-822 | the keys of other steps, or of other samples of the step, stay with their rows |
| SqliteCache.SQLiteCache.NoteExternalHit | osimflow/cache.py:852-861 | the miss just counted becomes a hit, never below zero |
| DistributedCache.FieldIsInjective | osimflow/distributed_cache.py:291-303 | pipe-free keys share a field exactly when they differ in `n_samples` at most |
| DistributedCache.FieldIs | osimflow/distributed_cache.py:291-303 | the seven parts of the field, in order |
| DistributedCache.PatternIsExact | osimflow/distributed_cache.py:920-940 | the glob of an invalidation matches exactly the fields of the keys it names |
| DistributedCache.InvalidationIsExact | osimflow/distributed_cache.py:669-690 | an invalidation takes from the shared hash exactly the fields of the named keys and leaves the other entries as they are |
| DistributedCache.MessageRemoves | osimflow/distributed_cache.py:789-839 | a peer's message removes the named keys and no other; a process's own removes nothing |
| DistributedCache.AnswerIs | osimflow/distributed_cache.py:889-913 | a usable local copy answers, else a usable shared entry if Redis can be reached |
| DistributedCache.CopyAnswersAlone | osimflow/distributed_cache.py:889-913 | the copy made on a shared hit gives the same answer by itself through any outage, and touches no other key |
| DistributedCache.Cache.Store | osimflow/distributed_cache.py:598-625 | the local row is written, and the shared entry if the breaker and Redis allow |
| DistributedCache.Cache.SharedLookup | osimflow/distributed_cache.py:627-667 | a shared answer is an entry with exit code 0 whose output exists |
| DistributedCache.Cache.Lookup | osimflow/distributed_cache.py:889-913 | local hits do not consult the breaker; a shared hit is copied into the local table |
| DistributedCache.Cache.SharedInvalidate | osimflow/distributed_cache.py:669-690 | every matching shared field is deleted, nothing else |
| DistributedCache.Cache.Publish | osimflow/distributed_cache.py:841-887 | a broadcast passes the breaker on its own and reports its own outcome |
| DistributedCache.Cache.InvalidateStep | osimflow/distributed_cache.py:920-930 | the step's keys leave the local table and, Redis permitting, the shared hash; delete and broadcast are two gated operations |
| DistributedCache.Cache.InvalidateSample | osimflow/distributed_cache.py:932-940 | the sample's keys leave the local table and, Redis permitting, the shared hash; delete and broadcast are two gated operations |
| DistributedCache.Cache.HandleInvalidation | osimflow/distributed_cache.py:789-839 | a peer's message removes what it names; one's own is ignored |
| DistributedCache.CacheRecovers | osimflow/distributed_cache.py:598-690 | one gate per operation: after the cooldown the next shared operation reaches Redis and a success closes the circuit |
| CacheOutage.FailuresOpenTheCircuit | osimflow/distributed_cache.py:598-690 | failed operations in a row all reach Redis until there are threshold of them; from the last of these none does before the cooldown is over |
| CacheOutage.FiveFailuresShutRedisOff | osimflow/distributed_cache.py:420-424 | with the settings of the cache: five failures, thirty seconds |
| CacheOutage.GatedRunIsHistory | osimflow/distributed_cache.py:598-690 | any sequence of cache operations is a history of the breaker, and reaches Redis as often as calls are admitted |
| CacheOutage.OutageBudget | osimflow/distributed_cache.py:598-690 | while Redis is dead at most floor(T / cooldown) cache operations reach it within T of the failure that opened the circuit |
| CacheOutage.OutageEnds | osimflow/distributed_cache.py:598-690 | the first operation past the cooldown reaches Redis, and its success lets every later one through |
| CacheProtocol.CoherenceInvariant | osimflow/distributed_cache.py:789-940 | with failing reads and deletes allowed, in every run each local key is in the shared hash or covered by an undelivered message of a peer |
| CacheProtocol.MissedStoreBreaksIff | osimflow/distributed_cache.py:598-625 | a store that misses Redis keeps the invariant if and only if the field was shared already or a message covers it |
| CacheProtocol.SilentDeleteBreaksIff | osimflow/distributed_cache.py:669-690 | a shared delete that is not broadcast keeps it if and only if every copy it orphans is covered by another message |
| CacheProtocol.QuiescentTablesAreShared | osimflow/distributed_cache.py:789-940 | once all messages are delivered no process holds a key the shared hash lost |
| CacheProtocol.BroadcastWorksIffNamed | osimflow/distributed_cache.py:806-828 | a delivered broadcast removes what it names if and only if no name in it is empty |
| CacheProtocol.EmptyStepIsNeverDropped | osimflow/distributed_cache.py:806-828 | an invalidation of the empty step takes the shared entry and leaves a peer's copy behind |
| CacheProtocol.OwnBroadcastSparesRebuild | osimflow/distributed_cache.py:789-839 | a process's own late broadcast spares what it rebuilt since, while a peer's copy made since is taken |
| CacheProtocol.DeliverySparesOthers | osimflow/distributed_cache.py:789-839 | no delivery takes a key its message does not name |
| CacheProtocol.EveryEntryIsSourced | osimflow/distributed_cache.py:598-690 | every successful entry anywhere was stored by some process under the same field |
| CacheProtocol.HitsAreSound | osimflow/distributed_cache.py:889-913 | outages and late messages included, a hit is the output of a successful store of the same field |
| CacheProtocol.SharedEntrySurvives | osimflow/distributed_cache.py:598-690 | a shared entry stays until a store or an invalidation touches its field |
| CacheProtocol.StoreIsVisibleToAll | osimflow/distributed_cache.py:598-667 | after a successful store every process hits until something covers the field again, however late old messages arrive |
| CacheProtocol.NewestIsAnsweredIff | osimflow/distributed_cache.py:889-918 | after a store, until something touches its field, a process answers with the new output if and only if it holds no other usable copy, and what it holds is old or new |
| CacheProtocol.FreshPeerSeesNewest | osimflow/distributed_cache.py:889-918 | the condition before the store: the new output is answered at once if and only if no older usable copy was held, and then it stays answered |
| CacheProtocol.OldCopySurvivesReStore | osimflow/distributed_cache.py:915-918 | a re-store is not broadcast, so a copy made before it stays |
| DataPoints.DataPointManager.Register | osimflow/data_point_manager.py:223-265 | the committed file is the operation applied to the file read under the lock, or unchanged with the error raised |
| DataPoints.DataPointManager.UpdateStatus | osimflow/data_point_manager.py:345-376 | same, for a status change that registers unknown ids |
| DataPoints.DataPointManager.SetPriority | osimflow/data_point_manager.py:382-391 | same, for a priority change |
| DataPoints.DataPointManager.MarkForReanalysis | osimflow/data_point_manager.py:405-476 | same, for a reanalysis with its counter and fresh id |
| DataPoints.DataPointManager.Merge | osimflow/data_point_manager.py:478-541 | same, for a merge of any list of sources, repeated ones included |
| DataPoints.DataPointManager.ReorderPending | osimflow/data_point_manager.py:555-588 | same, for new priorities of pending points, all or none |
| DataPointEffects.StatusEffect | osimflow/data_point_manager.py:345-376 | field by field: the given status and time, a completion time exactly for the final statuses, the error text if there is one; other points untouched |
| DataPointEffects.RegisterEffect | osimflow/data_point_manager.py:238-265 | a new point starts pending with the given priority and directory; a known one keeps the rest |
| DataPointEffects.FileEffect | osimflow/data_point_manager.py:275-329 | seed model and weather file are set alone |
| DataPointEffects.PriorityEffect | osimflow/data_point_manager.py:382-391 | priority and time of a known point; an unknown one raises |
| DataPointEffects.ReorderEffect | osimflow/data_point_manager.py:555-588 | exactly the pending points listed take their new priority |
| DataPointEffects.MergeEffect | osimflow/data_point_manager.py:478-541 | both ends of the link: every source points at the target, the target lists the sources, all are merged, others untouched |
| DataPointEffects.MergeErrors | osimflow/data_point_manager.py:478-541 | a merge of nothing, or of an unknown point, raises; the first unknown one is named |
| DataPointEffects.ReanalysisEffect | osimflow/data_point_manager.py:405-476 | the new point takes priority, directory, seed model and weather file from its parent and starts afresh otherwise; wrong states raise |
| DataPointEffects.UnregisterEffect | osimflow/data_point_manager.py:393-403 | exactly the one point goes |
| DataPointEffects.RunsAreWellKept | osimflow/data_point_manager.py:223-588 | in every run with a clock that does not go back, created, completed and updated times are in order and every final point has a completion time |
| DataPointEffects.LastStatusHolds | osimflow/data_point_manager.py:345-376 | a reported status stays on file, with its completion time, through any run of operations that do not set it |
| DataPointEffects.LastPriorityHolds | osimflow/data_point_manager.py:382-391 | so does a priority |
| DataPoints.ReanalyzeIdInjective | osimflow/data_point_manager.py:405-476 | the id built from parent and counter determines both, for every parent id |
| DataPoints.ReanalysisIdIsFresh | osimflow/data_point_manager.py:405-476 | while the counters cover the ids handed out, the next id is new |
| DataPoints.ReanalysisOverwritesNothing | osimflow/data_point_manager.py:405-476 | a reanalysis adds one point and changes only the parent's counter and timestamp |
| DataPoints.DisciplinedKeepsCounted | osimflow/data_point_manager.py:223-588 | every operation except unregistering, with client ids that do not imitate reanalysis ids, keeps the counters covering |
| DataPoints.CountedForever | osimflow/data_point_manager.py:223-588 | the same over every sequence of operations |
| DataPoints.ReanalysisAddsIffIdFree | osimflow/data_point_manager.py:405-476 | a reanalysis adds one point and keeps every other if and only if its id is not taken |
| DataPoints.UnregisterMakesReanalysisOverwrite | osimflow/data_point_manager.py:393-476 | unregister, register again, reanalyse: the new id is already taken |
| ReanalysisIds.StaysClashFree | osimflow/data_point_manager.py:223-588 | a table in which no id can still be handed out twice stays so under every disciplined operation |
| ReanalysisIds.OverwritableIffClashing | osimflow/data_point_manager.py:223-588 | some run without unregistering and imitated ids reaches a reanalysis that replaces a point if and only if the table holds an id its obtainable parent has yet to hand out |
| ReanalysisIds.CountedNeverOverwrites | osimflow/data_point_manager.py:223-588 | while the counters cover the ids no such run exists |
| DataPointProtocol.StepKeepsInv | osimflow/data_point_manager.py:171-221 | every step of every process, crashes and failed writes included, keeps lock, file and memory consistent |
| DataPointProtocol.FileIsFoldOfCommits | osimflow/data_point_manager.py:171-221 | in every interleaving the state file is never torn and is the fold of exactly the committed operations in commit order |
| DataPointProtocol.CommitSeesCurrentFile | osimflow/data_point_manager.py:205-221 | no lost update: each commit is computed from the file it replaces |
| DataPointProtocol.MutualExclusion | osimflow/data_point_manager.py:180-221 | at most one process holds the lock |
| DataPointProtocol.LeftAloneItCommits | osimflow/data_point_manager.py:205-221 | a process left alone with the lock free commits its operation, or leaves the file as it was if it raises, and frees the lock |
| DataPointProtocol.CrashReleasesLock | osimflow/data_point_manager.py:180-221 | a crash leaves file and commits as they were, and the next process left alone commits |
| DataPointProtocol.ReanalysisFreshInEveryRun | osimflow/data_point_manager.py:405-476 | in every interleaved run of disciplined clients a reanalysis overwrites nothing |
| OswTable.CollectStepAliases | osimflow/apply_params.py:828-861 | a step keeps exactly the names nobody else claims and that are no measure's name |
| OswTable.RawAliasesAre | osimflow/apply_params.py:842-852 | only a step with a directory asks for aliases: its name and the names in its `measure.xml` |
| OswTable.SoleIffSingleClaim | osimflow/apply_params.py:851-861 | counting claims decides sole ownership |
| OswTable.MappingTable.Register | osimflow/apply_params.py:782-825 | one registration: first match for plain names, ambiguity marks for a repeated measure, aliases last |
| OswTable.ParseOswArguments | osimflow/apply_params.py:864-940 | the loops over steps, listed arguments, `measure.xml` and `__SKIP__` build the specified table |
| OswTable.RegisterStep | osimflow/apply_params.py:892-939 | the three passes register a step's declarations in order |
| OswReadings.DeclsAreDefaults | osimflow/apply_params.py:907-939 | what a step registers is what it declares: how often, and with which default first |
| OswReadings.DefaultIs | osimflow/apply_params.py:907-939 | a step declares its listed arguments with their values, then those of its `measure.xml` with their defaults, then `__SKIP__` as false |
| OswReadings.RegistrationEffect | osimflow/apply_params.py:782-825 | a registration reaches any key as a plain name, then by its measure, then by an alias |
| OswLookup.KeyIsRight | osimflow/apply_params.py:864-940 | in every workflow a key with one declared reading resolves to the target of that reading |
| OswLookup.TableIsRightIff | osimflow/apply_params.py:864-940 | every declared plain and qualified name resolves to its own target if and only if no key has two declared readings |
| OswLookup.PlainKeyTakesFirstStep | osimflow/apply_params.py:808-810 | a plain name goes to the lowest step declaring it, and is absent if none does |
| OswLookup.FirstStepOwnsName | osimflow/apply_params.py:803-810 | the whole entry of a plain name: default, index, measure and name of the first step declaring it |
| OswLookup.MeasureOwnsItsKeys | osimflow/apply_params.py:811-821 | a step with directory d, or else name d, declaring `a` owns the key d + "." + a, with its whole entry |
| OswLookup.AmbiguousIffTwoSteps | osimflow/apply_params.py:812-821 | `M.arg` is ambiguous if and only if two steps of measure M declare it; the labels list those steps in order |
| OswLookup.LabelsRepeatIff | osimflow/apply_params.py:812-939 | a step is listed twice if and only if the key is a `__SKIP__` that a later step's `measure.xml` declares and its arguments do not |
| OswLookup.AliasNamesOneStep | osimflow/apply_params.py:822-861 | an alias key resolves to the one step claiming the alias, unambiguously, exactly when that step declares the argument |
| OswLookup.RepeatedMeasure | osimflow/apply_params.py:782-861 | two named steps of one measure: the plain name goes to the first, the dotted one lists both names, each step name is its own alias |
| OswLookup.DotFreeIsRight | osimflow/apply_params.py:864-940 | without dots in names the whole table is right |
| OswLookup.DotsMergeMeasures | osimflow/apply_params.py:812-821 | in any workflow with a measure `p.q` declaring `a` and a measure `p` declaring `q.a` the two share a key and the table is wrong |
| OswLookup.DottedWorkflowIsWrong | osimflow/apply_params.py:864-940 | two such steps alone, for all names |
| OswLookup.SkipIsListedTwice | osimflow/apply_params.py:917-939 | two unnamed steps of a measure whose `measure.xml` declares `__SKIP__` get the labels step[0], step[1], step[1] |
| OswPreflight.PreflightCheck | osimflow/apply_params.py:993-1046 | the checks in their order, each reporting everything it finds |
| OswPreflight.CheckAmbiguousStepTargets | osimflow/apply_params.py:1049-1070 | lists the given keys that match several steps |
| OswPreflight.CheckAmbiguousParameters | osimflow/apply_params.py:1073-1120 | lists the plain names that two measures expose |
| OswPreflight.AmbiguousNameIff | osimflow/apply_params.py:1094-1113 | counting measures decides whether two dotted keys of different measures expose the name |
| OswPreflight.CheckCrossMeasureConflicts | osimflow/apply_params.py:1123-1207 | reports exactly the arguments with a conflict |
| OswPreflight.StepsIsolated | osimflow/apply_params.py:1182-1188 | counting distinct step indices decides whether they are pairwise different |
| OswPreflight.AcceptedIffNoClash | osimflow/apply_params.py:993-1207 | a parameter set is accepted if and only if every name is known and matches one step, no plain name is exposed by dotted keys of two measures, and no two names clash |
| OswPreflight.ReportsAre | osimflow/apply_params.py:1022-1046 | what each refusal names, by its own condition, and the order of the checks |
| OswVerdicts.KeysAreDeclared | osimflow/apply_params.py:864-940 | a workflow's table holds declared names and nothing else |
| OswVerdicts.TwoMeasuresIff | osimflow/apply_params.py:1094-1113 | without dots in names, two measures are found if and only if steps of two measures declare the argument |
| OswVerdicts.VerdictIs | osimflow/apply_params.py:993-1207 | read off the workflow: a list of names is accepted if and only if each is declared, plain ones not by two measures, qualified ones not by two steps, no argument comes both plain and qualified, and no step gets it twice |
| OswVerdicts.OneStepAcceptsItsNames | osimflow/apply_params.py:993-1046 | a one-step workflow knows every argument it declares and accepts each of its names alone |
| OswPreflight.TableHasShape | osimflow/apply_params.py:864-940 | in every workflow's table a key is its argument name, bare or qualified, of a real step |
| OswPreflight.SameTargetClashes | osimflow/apply_params.py:1123-1207 | two keys with one target clash, unless the argument name is empty or ends in a dot |
| OswPreflight.AcceptedTargetsDistinct | osimflow/apply_params.py:1131-1146 | accepted parameters with well-formed names write distinct step arguments |
| OswPreflight.SoundIffNoBlindPair | osimflow/apply_params.py:1131-1146 | every accepted set writes distinct arguments if and only if the table has no two precise keys for one badly named argument |
| OswPreflight.BadNameSlipsThrough | osimflow/apply_params.py:1150-1168 | any one-step workflow whose first argument is badly named has such a pair |
| OswMutation.ResolvesToOwnStep | osimflow/apply_params.py:1546-1558 | on its own workflow every table entry resolves to its own step |
| OswMutation.ResolvesByName | osimflow/apply_params.py:1546-1558 | the index holds while its step has the recorded name; a moved step is found by name, the first of several; else the index is trusted |
| OswMutation.TypesAreDeclared | osimflow/apply_params.py:1589-1597 | a step's argument types are those its `measure.xml` declares |
| OswMutation.OswFile.Mutate | osimflow/apply_params.py:1561-1609 | the parameters are written in order, or, after any refusal or ambiguity, nothing is |
| OswMutation.WritesAreSimultaneous | osimflow/apply_params.py:1561-1609 | without interference each target holds what the coercion answers to the parameter's value and the original file's, all else is untouched, and it fails only if some value is refused |
| OswMutation.OrderDoesNotMatter | osimflow/apply_params.py:1561-1609 | the parameter order changes neither the file nor whether it fails |
| OswMutation.DistinctTargetsDoNotInterfere | osimflow/apply_params.py:1546-1609 | distinct targets of the table are distinct destinations in the file |
| OswMutation.AcceptedWritesAreSimultaneous | osimflow/apply_params.py:993-1609 | passing preflight makes the mutation one simultaneous, order-independent assignment to the steps the table names |
| OswMutation.EachIsAskedOnce | osimflow/apply_params.py:1598-1608 | each accepted parameter puts its own value, the original value, the default, the declared types and the measure to the coercion, and the answer is what its argument holds |
| OswMutation.RefusedIffOneIs | osimflow/apply_params.py:1598-1608 | the file is refused if and only if the coercion refuses one of these requests |
| OswMutation.TheRestStays | osimflow/apply_params.py:1561-1609 | an argument no accepted parameter names stays as it was |
| OswMutation.ValuesLand | osimflow/apply_params.py:1561-1609 | with a coercion that answers the value, nothing is refused and every accepted parameter's own value stands in its argument |
| OswMutation.ExistingStay | osimflow/apply_params.py:1598-1608 | with one that keeps the existing value, present arguments do not change and absent ones become null |
| OswMutation.DefaultsLand | osimflow/apply_params.py:1598-1608 | with one that takes the default, every named argument holds the default of its table entry |
| OswMutation.Split | osimflow/_work_osm_mutations.py:32-46 | the loop separates workflow, weather and remaining parameters |
| OswMutation.SplitConserves | osimflow/_work_osm_mutations.py:13-47 | every parameter is used exactly once: the weather key, a step argument by its value or label, or passed on unchanged |
| OswMutation.SampleLands | osimflow/_work_osm_mutations.py:13-47 | from the sample to the file: every value for a step, by its label, stands in the argument its name stands for |
| OswMutation.ApplyOswParameters | osimflow/_work_osm_mutations.py:13-47 | returns what is left; a refused value leaves arguments and weather file alone |
| RelativePaths.SafeRel | osimflow/input_staging.py:386-390 | an accepted path is relative and never climbs |
| RelativePaths.SafeRelRoundTrip | osimflow/input_staging.py:386-390 | a staged relative path is read back as the same components |
| RelativePaths.SafeNameIff | osimflow/input_staging.py:386-390 | a single name is accepted if and only if it is not empty, `.` or `..` |
| RelativePaths.SafeRelIs | osimflow/input_staging.py:386-390 | of any string of components: refused if and only if it is absolute, has a `..`, or nothing is left |
| RelativePaths.KeptPartsAre | osimflow/input_staging.py:386-390 | all components but the empty ones and `.` are kept, in order |
| InputStaging.KeysDiffer | osimflow/input_staging.py:80-85 | object keys determine the hash and the kind of object |
| InputStaging.MaterializeManifest | osimflow/input_staging.py:288-345 | the download, check and write loops compute the rebuilt tree or fail |
| InputStaging.FetchMany | osimflow/input_staging.py:325-344 | fetching a list of files succeeds exactly when each download is intact, and stays inside the staged tree |
| InputStaging.DirsStay | osimflow/input_staging.py:318-324 | making the listed directories creates nothing outside the staged tree |
| InputStaging.MaterializesIffIntact | osimflow/input_staging.py:268-355 | for arbitrary bytes from storage, materializing succeeds if and only if the name can be placed and every download is what was staged, and then yields exactly the staged tree, mode 0 becoming 0o600 |
| Stager.InputStager.Hash | osimflow/input_staging.py:118-128 | a cached digest is the digest |
| Stager.InputStager.UploadBlob | osimflow/input_staging.py:130-140 | afterwards the blob is stored under its hash, uploaded now or before |
| Stager.InputStager.StageEntries | osimflow/input_staging.py:150-169 | the walk lists exactly the regular files and directories, with every blob stored |
| Stager.InputStager.StagePath | osimflow/input_staging.py:142-204 | the reference names the manifest of the path, manifest and blobs are stored, and earlier objects stay intact |
| Stager.StoredStays | osimflow/input_staging.py:130-204 | staging other paths later loses nothing |
| Stager.StagedIsMaterialized | osimflow/input_staging.py:142-345 | what was staged is rebuilt with every path, directory, content and mode |
| Stager.RebuiltTreeHolds | osimflow/input_staging.py:142-345 | entry by entry: the directories and regular files of the source and nothing else, each file with its content and its nine mode bits, or 0o600 if it has none |
| Stager.ModeOfFetched | osimflow/input_staging.py:342-344 | an entry without a mode leaves the default; one with a mode sets its nine bits, or 0o600 for none |
| Stager.MaterializedIsChecked | osimflow/input_staging.py:288-345 | for any storage and any manifest: nothing is materialized unless the manifest hashes to the reference, has a known schema and safe paths, and every download has the listed size and hash |
| PathRemapping.WorkerPathRemapper.Materialize | osimflow/input_staging.py:268-286 | a known path keeps its scratch path; a new one gets its own numbered directory; a failure maps nothing |
| PathRemapping.WorkerPathRemapper.Scratch | osimflow/input_staging.py:357-366 | the search returns the direct mapping or the first root above |
| PathRemapping.ScratchIs | osimflow/input_staging.py:357-366 | a mapped path has its own scratch path; below mapped roots the one mapped first decides |
| PathRemapping.WorkerPathRemapper.Original | osimflow/input_staging.py:368-375 | the search over scratch paths in mapping order |
| PathRemapping.WorkerPathRemapper.ScratchIncomparable | osimflow/input_staging.py:251-286 | scratch paths handed out by the counter are pairwise incomparable |
| PathRemapping.SearchIsUnambiguous | osimflow/input_staging.py:368-375 | the reverse search does not depend on the mapping order |
| PathRemapping.OriginalRoundTrip | osimflow/input_staging.py:357-375 | every path that is mapped or under a mapped root comes back, nested roots included |
| PathRemapping.OutsideStays | osimflow/input_staging.py:357-366 | a path outside all mapped roots is its own scratch path |
| PathRemapping.ScratchRoundTripsIffUnnested | osimflow/input_staging.py:357-375 | scratch paths round-trip if and only if no mapped root is nested in another |
| SafeEval.SafeVisitor.CheckAst | osimflow/_eval_safe.py:216-218 | accepts exactly the validated trees and restores its depth |
| SafeEval.SafeVisitor.Visit | osimflow/_eval_safe.py:152-213 | one node with its children, depth restored whether or not it raises |
| SafeEval.AcceptedNeverTooDeep | osimflow/_eval_safe.py:235-309 | at every node of an accepted tree the evaluator is below its own limit |
| SafeEval.GuardNeverFires | osimflow/_eval_safe.py:144-309 | the evaluator's depth guard never fires on a validated expression |
| SafeEval.BoolAgrees | osimflow/_eval_safe.py:278-286 | `all`/`any` give the truth value of the operand Python would return, after the same reads and calls |
| SafeEval.ChainAgrees | osimflow/_eval_safe.py:265-276 | the comparison loop equals the chained comparison |
| SafeEval.ConditionsDecideAsPython | osimflow/_eval_safe.py:235-309 | with `and`/`or` only in condition positions or over boolean operands, truth value, failures and order of evaluation are Python's |
| SafeEval.BoolValueAgreesIffBoolean | osimflow/_eval_safe.py:278-286 | used as a value, an `and`/`or` agrees with Python if and only if Python's operand is a boolean |
| SafeEval.BooleanOperandsAgree | osimflow/_eval_safe.py:278-286 | it does whenever every operand is a comparison, a negation, a boolean constant or built from such |
| SafeEvalLaws.OperandsKeepOrder | osimflow/_eval_safe.py:246-253 | the left operand is read first and is the operator's first argument, in both readings |
| SafeEvalLaws.UnaryMeans | osimflow/_eval_safe.py:256-263 | `not` negates the truth value, twice gives it back; signs are applied to the value |
| SafeEvalLaws.ChainMeans | osimflow/_eval_safe.py:266-276 | a failing comparison decides alone; else the middle value, read once, meets the third |
| SafeEvalLaws.BoolMeans | osimflow/_eval_safe.py:279-286 | `x and y` stops at a false x, `x or y` at a true one; the interpreter gives the truth value, Python the operand |
| SafeEvalLaws.IfMeans | osimflow/_eval_safe.py:289-294 | only the chosen branch is evaluated |
| SafeEvalLaws.DeMorgan | osimflow/_eval_safe.py:256-286 | `not` over `and`/`or` is the other connective over the negations: value, failure and order of evaluation |
| SafeEvalLaws.NestingLimit | osimflow/_eval_safe.py:152-180 | eight nested operators are accepted, nine are not; the evaluator alone would stop at eleven |
| SafeEvalLaws.SizeLimit | osimflow/_eval_safe.py:157-168 | literals of up to a thousand elements are accepted, longer ones are not |

## Left out

Document store
- Index values are JSON values; that `str()` maps `1` and `"1"` to one slot is not modelled.
- Redis errors inside a slot claim, where the source reports success without claiming. A failed command has no effect.
- `update_one` and `delete_one` are atomic: they release before they write, so only inserts have the interleaved theorem.
- `$regex` and `LIKE`, dotted filter keys, list operands under scalar operators, and `CAST` of text.
- SQLite `update_one` writes every matching row; no backend equality is claimed for updates.
- Sorting, skipping and limiting in `find_many`; only its LRU warming is modelled.
- `str()` of a JSON value is a parameter, of which only `str(text) == text` is used.
- LRU coherence is for one process; callers do not mutate returned documents.
- Two inserts under one explicit id at the same moment; one after the other is covered, from any store.
- Corrupt JSON in a hash, collection tracking, and close.

Circuit breaker
- The transition callback, and the lock around each method: every call is one step with one clock reading.
- CircuitBreaking.DoubleGateRecoversIff: the client has been constructed; a failing construction reports to the breaker as well.

Caches
- DistributedCache.PatternIsExact: names without pipes and glob characters; glob character classes are not modelled.
- The lazy start and the reconnect loop of the subscriber, and process-private database files. Publishing delay is part of the inbox; other operations of the process between a delete and its broadcast are not.
- CacheProtocol.CoherenceInvariant: every store reaches Redis and every delete that reaches Redis is broadcast, since either failure can break it, as the two lemmas beside it state; names are free of pipes and glob characters; public operations are atomic, so the race of the copy into the local table is not modelled.
- Digests of files and containers.

Data points
- Several threads of one process, retries and timeouts of the lock beyond giving up, and creation of an absent state file outside the lock.
- `with_seed_model`, `with_weather_file` and `unregister` are operations of the fold but have no method of their own; a returned data point is a value, not an alias.

Workflow parameters
- Argument values are null, booleans, numbers or strings, and so are categorical labels. The coercion of a value is a parameter that may fail; JSON and XML parsing, and step names that are not strings.
- Directories whose `.osm` attributes override workflow keys, and the environment variable that turns conflicts into warnings.
- Fuzzy suggestions and error texts; only the names reported are modelled.
- OswMutation.ApplyOswParameters: takes the table of the file as an argument, and `arguments` that is not an object is not modelled.

Input staging
- Hash and JSON coding are parameters; collisions are excluded only among the bytes of one transfer.
- The staged tree does not change while it is staged; symbolic links, and the conversion of nested payloads, result upload plans and spilled payloads.
- Lexical paths are sequences of names; backslashes in an original path's last name.
- Scratch files of a failed materialization.

Expressions
- Parsing, the values themselves and Python's operators on them are parameters; comparisons return booleans.
- f-strings and `**` in dictionaries are accepted by the validator and refused by the evaluator; the reference reading refuses them as well.

Not modelled at all: production `.osm` mutation, executors, clients, command line, configuration, health checks, audit and event logs, aggregation.
