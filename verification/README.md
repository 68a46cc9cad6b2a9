# Teiken Claw: queue, locks, breaker, text and stores

A Dafny model of the stateful core of an agent service. Parts that change objects in place
are classes; each method is proved equal to a function on values, and the theorems about
whole runs are about those functions. Calculations are functions.

| file | what it models |
|---|---|
| `Wrappers`, `Whitespace` | an optional value; whitespace and strip as Python has them |
| `Jobs`, `QueueSpec`, `Queues`, `QueueRuns` | bounded priority queue, deduplication keys, retries, dead-letter queue, replay, shutdown; every run of all of them together |
| `Locks`, `LockRuns` | the lock manager's tables, and every interleaving of tasks and cleanups on them |
| `BreakerSpec`, `Breakers`, `Retries` | the circuit breaker over a clock, the client's retry loop that drives it, and the runtime's loop around that |
| `Splitting`, `Escaping`, `CodeEscaping`, `CodePromise` | splitting long messages, escaping for MarkdownV2, and when the code-preserving escaper does what it promises |
| `MemoryTable`, `ThreadTable`, `ThreadSession`, `Threads` | the soft-delete memory table and the thread table, each as a map; a database session whose copies of rows can be stale |
| `Similarity`, `Truncation` | cosine similarity in exact arithmetic, and fitting histories into a token budget |

## What the environment supplies

Clock readings, random identifiers, the jitter factor, the square root and the outcomes of
network requests are parameters. Ids of submitted jobs, lock ids and public ids are assumed
new. A call on the dispatcher or the dead-letter queue is one step, as is every section that
holds the lock manager's own lock; the priority queue is a multiset from which some minimal
job is taken. Database tables are sequences of rows.

## Where the code does not do what it says

These are kept as the code has them, and each has its exact condition below.

- Replaying a dead-lettered job into a stopped dispatcher reports success and deletes the
  row, but nothing is queued; a failure after the stop loses the job as well
  (`ReplayLosesJobIffStopped`, `LostExactlyWhen`).
- A submission refused because the queue is full has already recorded its deduplication key,
  so trying again is called a duplicate until the time-to-live since the last recording has
  passed (`FullRejectionBurnsKey`).
- A keyed job that fails within the time-to-live is not retried (`KeyedFailureFate`).
- The listed holders of a lock can outnumber the one owner (`HoldersOvercountIff`).
- The breaker is asked once per call, not once per attempt, so a call that starts on a closed
  breaker finishes its attempts after the breaker has opened (`NestedBound`).
- The formatter marks a cut with unescaped dots (`FormattedIsSafeIff`) and overruns a maximum
  of one or two (`FormatForTelegram`); the adapter does not escape backslashes
  (`AdapterIsSafeIff`); its code-preserving escaper passes on the text after a closed block up
  to the next fence and goes on from there out of step (`PromiseKeptIff`,
  `FencedPromiseKeptIff`).
- The context builder gives both histories the whole remaining budget
  (`BothHistoriesFitIff`).
- A session does not write a flag that its own copy of the row already has, while its bulk
  update clears the row: selecting such a thread leaves the chat without an active thread, and
  resolving then adds another (`SelectedIsActiveIff`, `ResolveAfterSelectAddsIff`).

## Model

| member | source | states |
|---|---|---|
| QueueRuns.Conservation | app/queue/dispatcher.py:129-318 | in every run from an empty system each accepted id is in exactly one of queue, workers, dead letters, completed, lost, purged; depth = enqueued - dequeued within the bound; rows = added - deleted; nothing is lost before a stop |
| QueueRuns.RunKeeps | app/queue/dispatcher.py:129-367 | the same invariant from any state that has it, with unique ids in every place and no key recorded in the future |
| QueueRuns.LostExactlyWhen | app/queue/dispatcher.py:143-149 | a step loses a job if and only if the dispatcher is stopped and the job fails with attempts to spare or is replayed from a row |
| QueueRuns.NothingEntersAfterStop | app/queue/dispatcher.py:339-369 | after a stop, whatever follows, the enqueue counter stands still and the queue only shrinks |
| QueueRuns.PutsAreApart | app/queue/dispatcher.py:113-170 | any two puts of one key in one run, retries and replays included, are more than the time-to-live apart |
| QueueRuns.KeyPersists | app/queue/dispatcher.py:113-127 | a recorded key survives any run with its time unchanged until the time-to-live has passed |
| QueueRuns.RecordedKeyDelays | app/queue/dispatcher.py:154-170 | a recorded key keeps every later put of it more than the time-to-live away from its recorded time |
| QueueRuns.EarlyFailureIsFinal | app/queue/dispatcher.py:297-318 | a keyed job failing within the time-to-live of a put of its key goes to the dead letters and is not re-queued, unless the dispatcher was stopped |
| QueueRuns.FullRejectionBurnsKey | app/queue/dispatcher.py:155-186 | after a refusal for fullness, in every continuation, a further submission of the key is a duplicate if and only if the time-to-live since the key's last recording has not passed; that is the refusal, unless the key was offered again after it expired |
| QueueRuns.BlockedIff | app/queue/dispatcher.py:113-170 | a key's last recording, read off the run, decides exactly which later jobs are duplicates |
| QueueRuns.KeyedFailureFate | app/queue/dispatcher.py:269-318 | a keyed job failing after a put of its key is re-queued if and only if attempts are left, the time-to-live since the last recording has passed and there is room, a stop aside |
| QueueRuns.StaysQueued | app/queue/dispatcher.py:208-247 | a queued job stays queued through any run that does not hand it out |
| QueueRuns.NoInversion | app/queue/dispatcher.py:208-247 | of two jobs queued together the strictly smaller is handed out first in every continuation |
| QueueRuns.WorkIsBounded | app/queue/dispatcher.py:208-318 | hand-outs, completions and failures of any run plus the work left at the end are at most the work at the start plus what arrived |
| QueueRuns.CreditBounds | app/queue/dispatcher.py:269-318 | a job id with credit n is handed out at most n times in any run without a replay of it |
| QueueRuns.LineageIsBounded | app/queue/jobs.py:126-146 | a submitted job with all its retries is handed out at most max(1, max_attempts - attempts) times, replays aside |
| QueueRuns.ReplayedLineageIsBounded | app/queue/dead_letter.py:245-266 | a job replayed from the dead letters may be handed out max(1, max_attempts) times more, whatever it had used up |
| QueueRuns.CountersAreRight | app/queue/dispatcher.py:129-247 | over every run the enqueued, rejected and duplicate counters together move by the puts attempted, the dequeued counter by the hand-outs |
| QueueRuns.DeadLetteredAsItFailed | app/queue/dead_letter.py:80-121 | after any run, a failure that is dead-lettered adds one row with the job as it was handed out, its error, the time, and a row id of its own |
| QueueSpec.FateOfFailure | app/queue/dispatcher.py:269-318 | when exactly a failed job is re-queued, lost or dead-lettered, in terms of attempts, stop, live key and room, and what the queue and the pending set then are |
| QueueSpec.EnqueueOutcome | app/queue/dispatcher.py:129-206 | exactly when a put is refused, called a duplicate, turned away or accepted, and that each outcome moves its own counter |
| QueueSpec.ReplayPutsAnew | app/queue/dead_letter.py:245-269 | a successful replay into a running dispatcher queues the job of a row with that id, with no attempts counted and created now, and nothing else of it changed |
| QueueSpec.ReplayAnswers | app/queue/dead_letter.py:223-294 | exactly when a replay finds nothing, too many, or fails, and that only success deletes the rows and counts |
| QueueSpec.DeleteAnswers | app/queue/dead_letter.py:296-323 | every row of the id goes and no other, counted once |
| QueueRuns.RetryIsNotOvertaken | app/queue/jobs.py:126-146 | a re-queued job is handed out before every strictly larger job that was queued when it failed, in every continuation |
| QueueSpec.ReplayLosesJobIffStopped | app/queue/dead_letter.py:223-294 | a replay that reports success queues the job if and only if the dispatcher is not stopped; the row is gone either way |
| QueueSpec.LookupDistinct | app/queue/dead_letter.py:165-192 | with distinct job ids a lookup finds at most one row and deletion keeps the rest distinct |
| QueueSpec.WithIdIff | app/queue/dead_letter.py:296-323 | lookup and deletion split the table: the rows with the id, and all the others |
| Jobs.QueueOrder | app/queue/jobs.py:103-154 | (priority, created_at) is a strict weak order on which queue tuples and jobs agree |
| Jobs.MinimalIs | app/queue/jobs.py:148-154 | what may be handed out is a job than which none has a smaller priority number, or the same and is older |
| Jobs.MinimalExists | app/queue/dispatcher.py:226-238 | a non-empty queue always has a job that may be handed out next |
| Queues.JobDispatcher.CleanupIdempotencyKeys | app/queue/dispatcher.py:113-127 | the loop of deletions leaves exactly the keys that have not expired |
| Queues.JobDispatcher.Enqueue | app/queue/dispatcher.py:129-206 | whole new state and answer: refused, duplicate, full (key recorded) or accepted |
| Queues.JobDispatcher.Dequeue | app/queue/dispatcher.py:208-250 | hands out a job before which none goes by priority and age and moves it to pending; no job exactly when the queue is empty |
| Queues.JobDispatcher.MarkComplete | app/queue/dispatcher.py:252-267 | only the id leaves the pending set |
| Queues.JobDispatcher.MarkFailed | app/queue/dispatcher.py:269-318 | whole new state of dispatcher and dead letters; the stored job is the one before its attempt was counted |
| Queues.JobDispatcher.Shutdown | app/queue/dispatcher.py:339-369 | sets the flag and nothing else |
| Queues.DeadLetterQueue.Add | app/queue/dead_letter.py:80-121 | appends one row with a new row id and counts it |
| Queues.DeadLetterQueue.Find | app/queue/dead_letter.py:165-192 | exactly the rows of the job id, in order |
| Queues.DeadLetterQueue.Delete | app/queue/dead_letter.py:296-323 | removes all rows of the job id, counts one, and says whether there were any |
| Queues.DeadLetterQueue.Replay | app/queue/dead_letter.py:223-294 | whole new state of both objects for every outcome: no dispatcher, none or several rows, refused by the queue, replayed |
| Locks.LockManager.GetOrCreateLock | app/queue/locks.py:90-104 | creates an unlocked lock and an empty holder set once per key |
| Locks.LockManager.RegisterLock | app/queue/locks.py:111-117 | both indexes after registration |
| Locks.LockManager.UnregisterLock | app/queue/locks.py:119-126 | both indexes after removal; nothing for an unknown id |
| Locks.LockManager.CleanupExpiredLocks | app/queue/locks.py:324-355 | exactly the expired entries go, their number is returned, no lock is touched and the indexes agree |
| Locks.LockManager.GetLockCount | app/queue/locks.py:308-322 | entries per kind, adding up to the total |
| LockRuns.RunKeeps | app/queue/locks.py:128-297 | exclusion, the agreement of the indexes and the justification of every sweep hold after any interleaving |
| LockRuns.MutualExclusion | app/queue/locks.py:128-297 | in every interleaving of tasks and cleanups at most one task owns a key, the lock is locked exactly then, and the holder index equals the ids of the entries |
| LockRuns.ReleaseNeverFails | app/queue/locks.py:198-202 | a task that releases always finds its lock locked |
| LockRuns.ListedUntilExpiry | app/queue/locks.py:324-355 | a body within its timeout is in both indexes whatever cleanups ran beside it |
| LockRuns.CleanupIsInvisible | app/queue/locks.py:324-355 | every run goes through just as well without its cleanups, with the same locks and every task at the same point |
| LockRuns.CleanupRemovesOverdue | app/queue/locks.py:324-355 | once a cleanup has ended, every entry that had outlived its timeout when it began is gone, whatever tasks did meanwhile |
| LockRuns.LockedIffOwned | app/queue/locks.py:357-365 | in every interleaving a key is reported as locked if and only if some task is between its acquire and its release |
| LockRuns.QuietWhenDone | app/queue/locks.py:111-126 | once all tasks have finished, both indexes are empty and no lock is locked |
| LockRuns.HoldersOvercountIff | app/queue/locks.py:199-202 | in every interleaving two ids are listed for a key if and only if they belong to two tasks of it of which one has released the lock and is still listed |
| LockRuns.HoldersCanOvercount | app/queue/locks.py:199-202 | an interleaving in which two ids are listed for one key |
| BreakerSpec.History | app/agent/circuit_breaker.py:149-252 | over every history: closed counts exactly the trailing failures, below the threshold, with no successes; half open is short of successes; open knows its last failure |
| BreakerSpec.EnoughFailuresOpen | app/agent/circuit_breaker.py:182-213 | the threshold of failures in a row never leaves it closed |
| BreakerSpec.Blocks | app/agent/circuit_breaker.py:112-138 | once open it refuses every question until the timeout has passed, whatever is recorded meanwhile, and a success does not close it |
| BreakerSpec.WindowOpensAndCloses | app/agent/circuit_breaker.py:215-268 | after an opening and any calls inside the window, a question is admitted if and only if the timeout has passed since the latest failure or forced opening of that history, and then half open |
| BreakerSpec.ProbesClose | app/agent/circuit_breaker.py:166-174 | from half open, n successes in a row close it if and only if they reach the threshold, with no failures left |
| BreakerSpec.FailedProbeOpens | app/agent/circuit_breaker.py:205-213 | a failed probe opens it from that time, and the successes before it do not count for the next closing |
| BreakerSpec.ClosedAndOpen | app/agent/circuit_breaker.py:149-213 | closed, a success forgets the failures and a failure opens it exactly at the threshold; open, a success changes nothing and a failure only the time |
| BreakerSpec.RefusedIff | app/agent/circuit_breaker.py:112-138 | a question is refused if and only if it is open and failed less than the timeout ago |
| BreakerSpec.ResetStartsAfresh | app/agent/circuit_breaker.py:254-261 | after a reset it goes on as a new breaker would, whatever came before and comes after |
| BreakerSpec.ForcedIsOpen | app/agent/circuit_breaker.py:263-268 | forcing always opens it and touches no counter |
| Breakers.CircuitBreaker.CanExecute | app/agent/circuit_breaker.py:112-138 | answer and whole new state |
| Breakers.CircuitBreaker.RecordSuccess | app/agent/circuit_breaker.py:149-180 | whole new state; nothing while open |
| Breakers.CircuitBreaker.RecordFailure | app/agent/circuit_breaker.py:182-213 | whole new state, with the failure time always recorded |
| Breakers.CircuitBreaker.Reset | app/agent/circuit_breaker.py:254-261 | back to a new breaker |
| Breakers.CircuitBreaker.ForceOpen | app/agent/circuit_breaker.py:263-268 | open now, with the counters as they were |
| Retries.AttemptsIs | app/agent/ollama_client.py:310-450 | the number of attempts is the least that ends in something other than a transport failure, or the limit |
| Retries.RequestWithRetry | app/agent/ollama_client.py:283-450 | requests sent, result and the breaker's state after one record per attempt; total sleep within 1.5 times the capped delays, exactly those without jitter |
| Retries.SendAttempts | app/agent/ollama_client.py:310-450 | the loop stops at the first request that is no transport failure or at the limit, with that request's result |
| Retries.BackoffBounds | app/agent/retries.py:72-107 | a delay lies within half of the capped exponential delay, never above 1.5 times the cap |
| Retries.CappedIsMinimum | app/agent/retries.py:96-100 | the delay before jitter is the smaller of the exponential one and the maximum |
| Retries.PowAdds | app/agent/retries.py:96-97 | the exponential is a power: exponents add |
| Retries.UncappedSum | app/agent/retries.py:96-100 | short of the maximum the delays of n retries are a geometric sum |
| Retries.FullyCappedSum | app/agent/retries.py:99-100 | at the maximum throughout they are n times it |
| Retries.CallWithRetry | app/agent/runtime.py:555-608 | the outer loop: further rounds only after transport failures, never after a refusal by the breaker |
| Retries.RoundsStop | app/agent/runtime.py:577-603 | for every network: all requests before the last met transport failures, the caller is told what the last one met, and of a transport failure only when every attempt of every round is used up |
| Retries.RequestTells | app/agent/ollama_client.py:310-450 | the breaker after an admitted call has had exactly one failure per failed attempt, at its time, and a success for an answer |
| Retries.FailuresInARow | app/agent/circuit_breaker.py:182-213 | n transport failures on a closed breaker add n, or open it with the time of the last |
| Retries.DownRound | app/agent/ollama_client.py:310-320 | one call against a dead network uses every attempt even if the breaker opens on the way |
| Retries.NestedBound | app/agent/runtime.py:577-603 | with everything failing and pauses shorter than the timeout exactly M * min(R, ceil((F - f) / M)) requests are sent, and the result says whether rounds were cut off |
| Retries.SixRequestsNotNine | app/agent/runtime.py:70-71 | with the repository's constants: six requests, then the breaker's refusal |
| Retries.LongPausesSendAll | app/agent/runtime.py:586-594 | with everything failing and every pause at least the timeout all M * R requests are sent |
| Retries.NineRequests | app/agent/runtime.py:70-71 | with the repository's constants and pauses stretched to the timeout: nine |
| Splitting.SplitMessage | app/interfaces/telegram_sender.py:323-359 | the one splitting that cuts at the preferred point each time, strips the chunk's end and the rest's start; within the limit, with only whitespace around the chunks, no word shorter than M - M//2 cut, (k-1)(M//2+1) <= length |
| Splitting.ChunkResponse | app/agent/result_formatter.py:123-162 | the same for the formatter, with sentence ends in the preference or the bare limit, both ends stripped and empty chunks dropped |
| Splitting.SplitPointIsGood | app/interfaces/adapters.py:472-493 | a split point lies in the second half, right after whitespace or at the limit when the second half has no break |
| Splitting.ChunkPointIsGood | app/agent/result_formatter.py:165-208 | the same with sentence ends among the candidates |
| Splitting.SplitPreference | app/interfaces/telegram_sender.py:361-396 | on the text: after the last paragraph break beyond the middle, else the last newline, else the last space, else the limit |
| Splitting.ChunkPreference | app/agent/result_formatter.py:165-208 | the same with the end of the last sentence mark and its whitespace before spaces |
| Splitting.SplittingIsUnique | app/interfaces/adapters.py:438-470 | the preference and the stripping leave one splitting only |
| Escaping.PassExtends | app/interfaces/adapters.py:199-216 | one replace pass over an escaped text is escaping with one character more |
| Escaping.EscapeTelegram | app/agent/result_formatter.py:74-94 | nineteen replace passes equal one left-to-right escape per character |
| Escaping.EscapeMarkdownV2 | app/interfaces/adapters.py:199-216 | eighteen passes equal the one-pass escape without backslashes |
| Escaping.EscapeConcat | app/interfaces/adapters.py:199-216 | escaping goes piece by piece, in whatever pieces |
| Escaping.EscapeChar | app/interfaces/adapters.py:199-216 | a listed character gets a backslash before it, another stays |
| Escaping.FormatForTelegram | app/agent/result_formatter.py:45-71 | the escaped text, or its head and three dots beyond the maximum; the maximum is kept if and only if the text fits it or it is at least three |
| Escaping.UnescapeEscape | app/agent/result_formatter.py:74-94 | unescaping recovers the text |
| Escaping.EscapeInjective | app/agent/result_formatter.py:74-94 | different texts never escape to the same |
| Escaping.FormatterIsSafe | app/agent/result_formatter.py:74-94 | no special character comes out bare, no backslash is left hanging |
| Escaping.AdapterIsSafeIff | app/interfaces/adapters.py:195-216 | the adapter achieves that exactly for texts in which no odd run of backslashes precedes a special character or the end |
| Escaping.AdapterLeavesUnderscoreBare | app/interfaces/adapters.py:199-216 | a two-character text whose underscore comes out bare |
| Escaping.EscapersAgreeIff | app/interfaces/adapters.py:194-216 | the two escapers agree on exactly the texts without a backslash |
| Escaping.FormattedIsSafeIff | app/agent/result_formatter.py:45-71 | the formatted text is valid exactly when it was not cut |
| CodeEscaping.EscapePreservingCode | app/interfaces/adapters.py:218-293 | the character-by-character scan ends and puts out the rendered segments: the input with backslashes only before special characters |
| CodeEscaping.SegmentsAreTheText | app/interfaces/adapters.py:218-293 | the plain and verbatim segments put together are the input |
| CodeEscaping.NothingLost | app/interfaces/adapters.py:218-293 | no character is lost, changed or moved |
| CodePromise.PromisedIsTheText | app/interfaces/adapters.py:218-231 | the promised reading, in which text goes on right after a closing fence, divides up the input |
| CodePromise.Readings | app/interfaces/adapters.py:218-293 | without a closed block the output is the promised one; with one, both are the same up to its closing fence, and what each makes of the rest |
| CodePromise.PromiseKeptIff | app/interfaces/adapters.py:242-258 | with no block closed the promise is kept; with one and no fence behind it, if and only if the rest of the text has its special characters in code only; with a further fence, if and only if the rest is promised verbatim up to it and then as the code reads it |
| CodePromise.FencedPromiseKeptIff | app/interfaces/adapters.py:218-293 | for stretches without backticks between any number of fences, the promise is kept if and only if no stretch with 2, 3 or 4 fences before it, modulo 6, has a special character |
| CodePromise.InlineIsVerbatim | app/interfaces/adapters.py:266-281 | inline code comes out as it is between escaped text, and what follows is read as text, as promised |
| CodePromise.CodeEscapesThirds | app/interfaces/adapters.py:218-293 | the scan escapes every third such stretch |
| CodePromise.PromiseEscapesSeconds | app/interfaces/adapters.py:218-231 | the promise is every second |
| CodePromise.StopAfterBlockIsBare | app/interfaces/adapters.py:242-258 | a text for which the promise is broken |
| MemoryTable.MeaningIs | app/memory/memory_store_v15.py:43-161 | the map behind the table holds exactly the live rows |
| MemoryTable.UpsertIsUpdate | app/memory/memory_store_v15.py:43-90 | upsert is map update, and adds a row exactly when the slot was empty |
| MemoryTable.SoftDeleteIsRemoval | app/memory/memory_store_v15.py:92-107 | soft deletion is map removal, or nothing if no live row of the thread has the id |
| MemoryTable.UpsertRow | app/memory/memory_store_v15.py:55-90 | an upsert touches one row: the live one of the slot, keeping its ids and creation time, or an added one with all its fields |
| MemoryTable.SoftDeleteRow | app/memory/memory_store_v15.py:92-107 | a soft deletion marks and dates that row only, and only if it is live and of the thread |
| MemoryTable.CountIs | app/memory/memory_store_v15.py:154-161 | a count is the number of rows of the thread and category that are not deleted |
| MemoryTable.History | app/memory/memory_store_v15.py:43-107 | over every history: one live row per slot at most, no row vanishes or moves, deleted rows never change |
| MemoryTable.LiveCountIsSlots | app/memory/memory_store_v15.py:154-161 | the live rows of a thread are as many as its slots in the map |
| MemoryTable.MemoryStore.UpsertMemory | app/memory/memory_store_v15.py:43-90 | whole new table, its meaning, whether a row was added, and the row returned |
| MemoryTable.MemoryStore.SoftDeleteMemory | app/memory/memory_store_v15.py:92-107 | whole new table, its meaning, and when it reports success |
| MemoryTable.MemoryStore.StatsByCategory | app/memory/memory_store_v15.py:154-161 | a right, non-zero count for exactly the categories in use, summing to the thread's slots |
| ThreadTable.ApplyTracks | app/memory/thread_store.py:123-203 | each call does to the flags what it does to a map from chats to threads, whatever the session leaves unwritten |
| ThreadTable.History | app/memory/thread_store.py:123-203 | over every sequence of calls the flags follow the map, so each chat has at most one active thread |
| ThreadTable.OtherChatsStay | app/memory/thread_state.py:123-135 | calls on other chats leave a chat's threads as they are and add none, in any table |
| ThreadTable.ResolveTwice | app/memory/thread_store.py:196-203 | resolving without a reference twice, with anything on other chats between, gives the same thread and adds none the second time |
| ThreadTable.SelectionHeals | app/memory/thread_store.py:135-185 | selecting leaves at most one active thread even where there were several, and it is the one selected if its flag was written |
| ThreadTable.NewestIsAbove | app/memory/thread_store.py:123-131 | the thread resolved without a reference is above every other active one by last activity, update and number |
| ThreadTable.CreateRows | app/memory/thread_store.py:135-163 | every row after a creation |
| ThreadTable.ActivateRows | app/memory/thread_store.py:165-185 | every row after a selection |
| ThreadTable.CloseRows | app/memory/thread_state.py:123-135 | every row after a closing |
| ThreadTable.CleanupRows | app/memory/thread_state.py:191-209 | every row after a clean-up, and that it reports the number of rows idle before the threshold |
| ThreadTable.ResolveAnswers | app/memory/thread_store.py:196-203 | exactly when a reference is invalid or not found, and that nothing changes then |
| ThreadTable.LookupAnswers | app/memory/thread_store.py:165-176 | selecting and closing answer whether the chat has such a thread |
| ThreadSession.SelectedIsActiveIff | app/memory/thread_store.py:165-185 | a selected thread is active if and only if the session's copy of it was not active before, and no other thread of the chat is |
| ThreadSession.ResolveAfterSelectAddsIff | app/memory/thread_store.py:165-203 | resolving after a selection adds a thread if and only if that copy was already active |
| ThreadSession.CreateSelectResolve | app/memory/thread_store.py:135-203 | create a thread, select it, resolve: another thread is added, whether or not the copy was collected in between |
| ThreadSession.SwitchBackIff | app/memory/thread_store.py:135-185 | after creating two threads, selecting the first works if and only if the session has dropped its copy of it |
| ThreadSession.SelectTwice | app/memory/thread_store.py:165-185 | the refresh after a selection mends the copy, so a second selection undoes the first: the thread is active if and only if the copy was before both |
| ThreadSession.ClosedUnlessStale | app/memory/thread_state.py:123-135 | closing leaves a row active if and only if it was and the copy was not; selecting afterwards always works |
| ThreadSession.ResolveIsSelect | app/memory/thread_store.py:196-203 | resolving with a good reference is selecting it |
| ThreadSession.AtMostOneAlways | app/memory/thread_store.py:123-203 | whatever any number of sessions do, with copies however stale, each chat has at most one active thread |
| ThreadSession.CloseInOrderIs | app/memory/thread_state.py:205-209 | closing idle threads one by one, the copies changing as it goes, comes to closing them all with the copies of the start |
| Threads.ThreadStore.CreateThread | app/memory/thread_store.py:135-163 | whole new table and copies; the new thread is the chat's only active one |
| Threads.ThreadStore.SetActiveThread | app/memory/thread_store.py:165-185 | whole new table, copies and answer; unknown references change nothing |
| Threads.ThreadStore.GetOrCreateActiveThread | app/memory/thread_store.py:123-135 | the newest active thread, or a new one if there is none |
| Threads.ThreadStore.ResolveThread | app/memory/thread_store.py:196-203 | whole new table, copies and answer: bad reference, unknown, selected, found or created |
| Threads.ThreadStore.CloseThread | app/memory/thread_state.py:123-135 | whole new table and copies, and whether the thread was found |
| Threads.ThreadStore.CleanupInactiveThreads | app/memory/thread_state.py:191-209 | closes the chat's idle threads one by one and returns their number |
| Similarity.CauchySchwarz | app/memory/embeddings.py:311-316 | the square of the dot product is at most the product of the squared magnitudes, for vectors of any length |
| Similarity.UpperClampNeverFires | app/memory/embeddings.py:321-325 | the quotient lies in [-1, 1], so the result is the quotient or 0 where it is negative |
| Similarity.SimilaritySymmetric | app/memory/embeddings.py:287-325 | symmetric, errors included |
| Similarity.SimilarityScale | app/memory/embeddings.py:287-325 | unchanged when a vector is stretched by a positive factor |
| Similarity.SimilaritySelf | app/memory/embeddings.py:287-325 | 1 for a vector that is not all zero with itself |
| Similarity.DotOfOne | app/memory/embeddings.py:311-316 | for one coordinate the dot product is the product |
| Similarity.DotAdds | app/memory/embeddings.py:311-316 | and it adds up over vectors put together |
| Similarity.SimilarityReordered | app/memory/embeddings.py:311-322 | reordering the coordinates of both vectors alike changes nothing |
| Similarity.SimilarityZero | app/memory/embeddings.py:302-325 | 0 for empty, unequal, zero or orthogonal vectors |
| Truncation.TruncateMessages | app/agent/context_builder.py:303-361 | the longest suffix whose estimates fit, by early return or by the loop |
| Truncation.TotalOfOne | app/agent/context_builder.py:284-297 | a message counts a quarter of its length rounded down, plus one |
| Truncation.KeptIsDetermined | app/agent/context_builder.py:336-349 | the budget determines the suffix; nothing for a budget of zero or less, everything exactly when everything fits |
| Truncation.MoreBudgetKeepsMore | app/agent/context_builder.py:303-361 | a larger budget keeps every message a smaller one keeps, and cutting twice is cutting once |
| Truncation.Build | app/agent/context_builder.py:178-209 | the prompts whole, then both histories cut with the budget the prompts leave |
| Truncation.ContextBounds | app/agent/context_builder.py:194-209 | prompts with either history are at most max(prompts, available), with both at most one budget more |
| Truncation.BothHistoriesFitIff | app/agent/context_builder.py:199-209 | any two histories are certain to fit if and only if the prompts leave no budget |
| Truncation.Overrun | app/agent/context_builder.py:199-209 | for every positive budget, histories that overrun it by exactly one more budget |

## Left out

- Queues.JobDispatcher.MarkFailed: one step, although the code awaits the database while it adds the dead-letter row.
- Queues.DeadLetterQueue.Replay: one step, although the code awaits between the lookup, the put and the deletion, so overlapping replays of one id are not covered.
- Queues.JobDispatcher.Dequeue: waiting is left out; a call that finds nothing stands for one that timed out.
- Cancellation of a task inside acquire_chat_lock, and the order in which waiters get a lock, which asyncio decides.
- Lock id generation, and the identity of lock objects beyond their key.
- Only the three outcomes that are transport failures are retried; response parsing and the HTTP exchange itself are an oracle.
- `retry_async`, retry statistics and `circuit_breaker_protect`, which repeat the loop and the breaker modelled here around other functions.
- The job loop, process_job and worker pool, which only call the methods modelled here.
- `normalize` and `trim` of the memory store are any functions; that they strip and lower-case is not used.
- `list_memories` and `get_memory`, which filter the same rows.
- Titles, modes, personas and session rows of threads; of SQLAlchemy's identity map only the activity flag of the rows in memory is kept.
- Assembling the prompt texts; they enter the context as they are.
- Floating-point rounding in the similarity, the backoff and the breaker's clock.
- Score fusion and ranking in retrieval, the duplicate check of tool calls, and database search.
- Routes, command line, Telegram handlers, scheduler, throttles, logging, metrics, migrations, settings.
