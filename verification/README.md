# Verification of the policy engine's concurrency examples, its evaluator and cache, and the auth service's stores

This project models the code that decides, schedules and stores in this repository, and proves what the rest of
the repository relies on.  `dafny verify dfyconfig.toml` checks it.

* **Worker pool and fan-out** (`WorkerPool`, `WorkerPoolOutcome`, `ThreadPool`, `FanOut`).  One main thread sends
  into a channel, drops its sender and joins; N workers take the mutex, call `recv` while holding it, release it and
  run the job outside.  Every atomic action is a step, and every statement is about all schedules, any number of
  workers and jobs, with or without a bounded buffer, with jobs that panic anywhere.  Proved: which jobs are run
  (each exactly once), exactly when all of them are, a bound on the length of every schedule, and exactly when the
  protocol can deadlock.  `ThreadPool.ThreadPool` is the object; its methods take the protocol's steps.
* **Retry queue** (`RetryLoop`, `RetryOutcome`, `RetryQueue`).  The FIFO loop is proved equal to a reference of
  whole rounds, for every job function.  From that: round order, conservation, termination although failed jobs are
  pushed back, the exact dead letters, and exactly when the `Duration` arithmetic panics.
* **Channels with many producers, and command channels** (`Producers`, `Commands`).
* **Policies, hierarchy, evaluators, cache** (`Policy`, `Engine`, `PolicyCache`).  The design notes
  (docs/concurrency-design-decisions.md:45) say that `evaluate` and `evaluate_linear` always agree.  They do
  not agree on lists that hold a key twice: the index keeps the last policy of a key, the scan finds
  the first.  `Engine.FormsDisagree` is a concrete list, `Engine.FormsAgreeIff` the exact condition.
* **User and session stores** (`StoreModel`, `StoreInvariants`, `StoreSimulation`, `MemoryStore`, `SqliteStore`,
  `Rfc3339`).  Both stores are objects whose methods are proved against functions on their contents.  The in-memory
  one holds user objects that are updated in place after they have been handed out.  The SQLite one holds rows with
  timestamps as RFC 3339 texts that are compared as texts and parsed when read; `Rfc3339` contains the calendar and
  proves that this comparison is that of the instants.  The SQLite store simulates the in-memory one.
* **Request handlers** (`Stores`, `Handlers`, `LostUpdates`, `Races`, `SqliteHandlers`, `Uninterrupted`,
  `Outcomes`, `HandlerMethods`, `SqliteHandlerMethods`).  `Stores` is
  the contract both stores share; what is proved from it holds with either, and so of the server, which uses SQLite.  A
  handler is a sequence of store calls, each under the store's lock, and of unlocked reads of what it has fetched: of
  the stored object itself with the in-memory store, of a copy with SQLite.  Any other request may run between two of
  these.  Proved over all interleavings: who can delete a session, that nobody inherits one, which roles can ever be
  stored, that a refused request has changed nothing, whose session a login opens, and exactly when a password change
  or an edit overwrites somebody else's update.  It can, with either store; `Races` has the runs.
  `SqliteHandlers` compares the two stores: a run goes the same way with both, to the second, if and only if no step
  changes something that some request has still to read.  `Races.DifferentAnswers` is a run in which they answer
  differently.  `Outcomes` says what each request
  is answered and stores, in terms of what is in the store.  The handlers' code is proved against the interleaved model
  on both stores.

Clock readings, random tokens, `SESSION_TTL`, the password check and the outcomes of job functions are parameters.
Two comments in the sources do not describe the code, and the model follows the code: policy-engine/examples/thread-pool.rs:27-29
and :93 say that `drop` propagates a worker's panic through `unwrap`, whereas it discards the result of `join`; and
policy-engine/examples/retry-queue.rs:99 says that the cap on the exponent avoids overflow, whereas a long base delay
still overflows a `Duration` (`RetryOutcome.PanicsIff`).

## Model

| member | source | states |
|---|---|---|
| WorkerPool.InitInv | policy-engine/examples/thread-pool.rs:40-75 | a new pool satisfies the protocol invariant: mutual exclusion, an intact channel, every message held once, one doomed worker per fatal message, workers leaving only a closed and empty channel |
| WorkerPool.StepLock | policy-engine/examples/thread-pool.rs:52-55 | on every step exactly the owner of the mutex is inside the guard's scope, also while it is blocked in `recv` |
| WorkerPool.StepChannel | policy-engine/examples/fan-out.rs:129-164 | on every step received + queued + still to send is the submitted list, in order, and a bounded buffer keeps its bound |
| WorkerPool.StepHeld | policy-engine/examples/thread-pool.rs:52-67 | on every step each message that has been received is in the hands or the log of exactly one worker |
| WorkerPool.StepDoom | policy-engine/examples/thread-pool.rs:56-67 | on every step the number of dead or dying workers is the number of fatal messages received, and nothing is received once all are |
| WorkerPool.StepClose | policy-engine/examples/thread-pool.rs:86-98 | on every step a worker sees the channel closed only when the sender is gone and nothing is left; main joins only workers that have ended; a send fails only when no receiver is left |
| WorkerPool.RunInv | policy-engine/examples/thread-pool.rs:45-98 | the invariant holds after every schedule |
| WorkerPool.MessageFate | policy-engine/examples/thread-pool.rs:47-67 | what each action makes of a worker: work is run and the worker comes back, a panicking job is run and kills it, a poison pill stops it, an error from `recv` makes it leave |
| WorkerPool.FatalCountMeaning | policy-engine/examples/thread-pool.rs:56-67 | the fatal messages are those that are panicking jobs or poison, and they are counted one by one |
| WorkerPoolOutcome.ServedUnique | policy-engine/examples/thread-pool.rs:56-67 | the served length is characterised by where it stops: at the end of the list or right at the n-th fatal message |
| WorkerPoolOutcome.ServedAllIff | policy-engine/examples/thread-pool.rs:56-67 | everything is served iff fewer than n messages before the last one are fatal |
| WorkerPoolOutcome.DropOutcome | policy-engine/examples/thread-pool.rs:86-98 | on every schedule, when `drop` has returned, exactly the served prefix has been processed, each message once |
| WorkerPoolOutcome.CompleteIff | policy-engine/examples/thread-pool.rs:45-98 | every submitted job is processed exactly once, on every schedule, iff fewer jobs than there are workers panic, not counting the last job |
| WorkerPoolOutcome.ExactlyOnce | policy-engine/examples/thread-pool.rs:45-98 | with distinct jobs, the i-th is started once if it is served and never otherwise |
| WorkerPoolOutcome.BudgetDecreases | policy-engine/examples/thread-pool.rs:47-98 | every step of any thread lowers one measure over unsent and queued messages, worker phases and joins |
| WorkerPoolOutcome.RunBound | policy-engine/examples/thread-pool.rs:47-98 | no schedule has more than 6 steps a message, 5 a worker and 2 |
| WorkerPoolOutcome.WorkerProgress | policy-engine/examples/thread-pool.rs:47-66 | while a worker is alive somebody can move, even with a worker holding the mutex inside `recv`; once the sender is dropped, a worker can |
| WorkerPoolOutcome.MainProgress | policy-engine/examples/fan-out.rs:159-171 | when all workers have ended main can move, if the channel can take what nobody will receive |
| WorkerPoolOutcome.NeverStuck | policy-engine/examples/fan-out.rs:129-170 | under that condition no reachable state is stuck |
| WorkerPoolOutcome.SomeRunSticks | policy-engine/examples/fan-out.rs:161-163 | without that condition some schedule blocks main in `send` for good |
| WorkerPoolOutcome.DeadlockFreeIff | policy-engine/examples/fan-out.rs:129-170 | for capacities of at least one a deadlock is reachable iff the channel cannot take what no worker will receive |
| ThreadPool.OnlyNextStep | policy-engine/examples/thread-pool.rs:47-67 | a worker has no choice: the only step it can take is the next one of its loop |
| ThreadPool.ThreadPool.constructor | policy-engine/examples/thread-pool.rs:40-75 | a new pool is the protocol's initial state |
| ThreadPool.ThreadPool.Execute | policy-engine/examples/thread-pool.rs:77-83 | appends the job to the channel unless all workers are dead or there are none, in which case `send` fails and nothing changes |
| ThreadPool.ThreadPool.WorkerTurn | policy-engine/examples/thread-pool.rs:47-67 | the loop body of a worker, action by action, is the protocol's step for it, or nothing when it is blocked |
| ThreadPool.ThreadPool.Drop | policy-engine/examples/thread-pool.rs:86-98 | `drop` returns whatever the scheduler does, and then exactly the served jobs have been run, once each |
| FanOut.FanOutTotals | policy-engine/examples/fan-out.rs:77-121 | on every schedule the workers together have processed 1..n, each item once, n in number and n(n+1)/2 in sum |
| FanOut.FanOutNeverStuck | policy-engine/examples/fan-out.rs:129-170 | with at least one worker and a capacity of at least one no reachable state is stuck, the buffer keeps its bound, and unsent + buffered + received is n |
| FanOut.NoWorkersStick | policy-engine/examples/fan-out.rs:129-163 | without workers the bounded fan-out blocks iff there are more items than the buffer takes |
| FanOut.WorkerResult | policy-engine/examples/fan-out.rs:80-100 | a worker's pair is the number and the sum of the items it took; a poison pill is not counted |
| FanOut.JoinAll | policy-engine/examples/fan-out.rs:111-117 | main's totals are the number and the sum of what all workers took |
| FanOut.Schedule | policy-engine/examples/fan-out.rs:75-117 | any scheduler reaches the end, by a schedule of the protocol |
| FanOut.Run | policy-engine/examples/fan-out.rs:71-122 | the example's two assertions hold for every n, every positive number of workers and every schedule |
| FanOut.ItemsAre | policy-engine/examples/fan-out.rs:106-108 | what is sent are the numbers 1 to n, each once, smallest first |
| RetryLoop.IterateInRound | policy-engine/examples/retry-queue.rs:73-112 | one iteration deals with exactly the next survivor of the current round, or panics because its back-off overflows |
| RetryLoop.EveryLoopHead | policy-engine/examples/retry-queue.rs:73-112 | every loop head is somewhere in some round of the reference: the queue is the rest of the round followed by its failures so far |
| RetryLoop.BackoffDoubles | policy-engine/examples/retry-queue.rs:98-101 | the delay is the base delay at first, doubles with every attempt up to the 31st, and stays there |
| RetryLoop.OverflowsIff | policy-engine/examples/retry-queue.rs:98-101 | the multiplication panics iff the product has more than 18446744073709551615 whole seconds |
| RetryOutcome.SurvivorsMeaning | policy-engine/examples/retry-queue.rs:73-112 | the reference's survivors of r rounds are exactly the jobs whose first r attempts fail, in submission order |
| RetryOutcome.RoundsMeaning | policy-engine/examples/retry-queue.rs:73-112 | the reference's calls of r rounds are exactly the attempts below r of jobs whose earlier attempts all fail |
| RetryOutcome.FailuresMeaning | policy-engine/examples/retry-queue.rs:82-88 | the failures of a completed run are the failing calls among those |
| RetryOutcome.RoundOrder | policy-engine/examples/retry-queue.rs:68-112 | at every loop head the queue's attempts do not decrease, span two consecutive values at most, and keep submission order inside each |
| RetryOutcome.CallsInOrder | policy-engine/examples/retry-queue.rs:73-74 | calls are made in round order and never twice for the same job and attempt, also in a run that panics |
| RetryOutcome.Conservation | policy-engine/examples/retry-queue.rs:69-112 | at every loop head each job has succeeded, is dead or is queued, exactly once |
| RetryOutcome.IterateDecreases | policy-engine/examples/retry-queue.rs:73-108 | the attempts the queue may still have go down in every iteration despite `push_back` |
| RetryOutcome.Terminates | policy-engine/examples/retry-queue.rs:73-112 | the loop ends within jobs × max(1, max_retries) iterations, whatever the jobs do |
| RetryOutcome.RunOutcome | policy-engine/examples/retry-queue.rs:63-119 | a run that ends has made exactly the calls of the reference rounds; the dead are the jobs that failed every attempt, in submission order, with max(1, max_retries) attempts; the failures recorded are those of all rounds |
| RetryOutcome.PanicsIff | policy-engine/examples/retry-queue.rs:98-101 | the run panics iff some job has to wait for a back-off that does not fit a `Duration` |
| RetryOutcome.NeverPanicsIff | policy-engine/examples/retry-queue.rs:98-101 | no job function can make the run panic iff there is no job, no retry, or the longest capped back-off fits |
| RetryOutcome.DeterministicFailures | policy-engine/examples/retry-queue.rs:82-96 | for a deterministic job function failed = dead letters × max(1, max_retries) |
| RetryQueue.RetryQueue.constructor | policy-engine/examples/retry-queue.rs:55-61 | a new queue has its two settings and no dead letters |
| RetryQueue.RetryQueue.Run | policy-engine/examples/retry-queue.rs:63-119 | appends exactly the reference's dead letters, with job, attempts and last error, and reports the reference's counts; or panics, exactly when it must, having buried nothing |
| RetryQueue.RetryQueue.DrainDeadLetters | policy-engine/examples/retry-queue.rs:121-123 | hands over all dead letters and leaves none |
| Producers.BlocksTile | policy-engine/examples/fan-out.rs:182-190 | the producers' blocks tile 1..P·M without gap or overlap, for the sum of any function |
| Producers.ClosedOutcome | policy-engine/examples/mpsc-queue.rs:123-146 | on every interleaving, a consumer that has seen the channel close has received every producer's block in that producer's order, and nothing else |
| Producers.StepsLeftDecreases | policy-engine/examples/mpsc-queue.rs:126-146 | every step of any thread lowers one measure |
| Producers.SomeoneMoves | policy-engine/examples/mpsc-queue.rs:126-146 | until the consumer has seen the channel close somebody can move |
| Producers.Collect | policy-engine/examples/fan-out.rs:195-202 | any scheduler ends with a channel that the consumer has seen close |
| Producers.MultiProducerSum | policy-engine/examples/mpsc-queue.rs:122-147 | P producers of M numbers total PM(PM+1)/2 on every interleaving |
| Producers.SumOfSquares | policy-engine/examples/fan-out.rs:203-210 | the closed form of the sum of squares |
| Producers.FanIn | policy-engine/examples/fan-out.rs:173-211 | the collector gets W·(T/W) results, all T iff W divides T, and their sum is that of the squares of 1..W·(T/W) |
| Commands.WindowUnique | policy-engine/examples/mpsc-queue.rs:52-64 | the part that counts, after the last reset and before the first stop, is unique |
| Commands.Consume | policy-engine/examples/mpsc-queue.rs:52-64 | the consumer's result is the sum of the increments of that part |
| Commands.IncrementsAddUp | policy-engine/examples/mpsc-queue.rs:52-64 | the increments of two sequences one after the other add up |
| Commands.IncrementsOfOne | policy-engine/examples/mpsc-queue.rs:52-64 | an increment counts with its number, the other commands with nothing |
| Commands.ConsumeUpTo | policy-engine/examples/mpsc-queue.rs:40-101 | increments by 1, 2, ..., n give n(n+1)/2, whatever precedes the reset before them and follows the stop after them |
| Commands.ConsumeFirst | policy-engine/examples/mpsc-queue.rs:40-77 | likewise with nothing before them |
| Blank.IsBlankString | policy-engine/src/policy.rs:30-42 | `trim().is_empty()`: every character is white space |
| Blank.WhiteSpaceIs | policy-engine/src/policy.rs:30-42 | the characters that are trimmed, one by one |
| Blank.SpacesAreBlank | auth-service/internal/handler/auth.go:65 | a string of spaces, tabs and line ends is blank |
| Blank.VisibleIsNotBlank | auth-service/internal/handler/auth.go:65 | a string with a visible ASCII character is not |
| Policy.ValidatePolicies | policy-engine/src/policy.rs:28-59 | accepts iff all policies are well formed; otherwise reports the first that is not, and the first of its faults |
| Policy.ValidateSpaces | policy-engine/src/policy.rs:30-35 | a role of nothing but spaces, tabs and line ends, if it is the first fault, is reported as an empty role |
| Policy.DefaultHierarchy | policy-engine/src/policy.rs:144-157 | the default hierarchy has exactly its three roles and edges, and is transitively closed |
| Policy.ClosedPath | policy-engine/src/policy.rs:133-157 | in a closed hierarchy both ends of any inheritance path are equal or one edge apart |
| Policy.ClosedReaches | policy-engine/src/policy.rs:133-157 | in a closed hierarchy the roles reachable by any path are the role itself and its direct ones |
| Engine.Engine.constructor | policy-engine/src/evaluator.rs:11-23 | the index holds, for exactly the keys of the list, what the last policy of the key says |
| Engine.Engine.Evaluate | policy-engine/src/evaluator.rs:25-47 | Some(true) iff the role or a directly inherited role has an allow as its last policy, None otherwise |
| Engine.Engine.Find | policy-engine/src/evaluator.rs:55-59 | the first matching policy |
| Engine.FirstAllowsIff | policy-engine/src/evaluator.rs:55-59 | the scan allows a key iff somewhere in the list it is allowed and no earlier policy has its role and action |
| Engine.LastAllowsIff | policy-engine/src/evaluator.rs:11-23 | the index allows a key iff somewhere in the list it is allowed and no later policy has its role and action |
| Engine.Engine.EvaluateLinear | policy-engine/src/evaluator.rs:49-80 | Some(true) iff the role or a directly inherited role has an allow as its first policy, None otherwise |
| Engine.FormsDisagree | policy-engine/src/evaluator.rs:25-80 | an allow followed by a deny for one key tells the two forms apart |
| Engine.FormsAgreeIff | policy-engine/src/evaluator.rs:11-80 | the forms agree on all roles, actions and hierarchies iff the first and the last policy of every key agree on being an allow |
| Engine.LinearIsIndexReversed | policy-engine/src/evaluator.rs:11-80 | always: the scan of a list is the index of the reversed list |
| Engine.OneLevelSpec | policy-engine/src/evaluator.rs:25-47 | evaluation looks at the role and at one edge |
| Engine.OneLevelEnoughIff | policy-engine/src/evaluator.rs:34-46 | one level is enough, for all policy lists, iff the hierarchy is transitively closed |
| Engine.MoreEdgesMoreAllows | policy-engine/src/evaluator.rs:25-80 | adding inheritance never revokes an allow, in either form |
| PolicyCache.CacheMatchesLog | policy-engine/src/cache.rs:22-45 | after any calls with a clock that does not run backwards the cache holds what the log of `set`s says is still valid |
| PolicyCache.GetIsLogLookup | policy-engine/src/cache.rs:22-45 | `get` at t returns d iff the latest `set` of the key stored d at an s with s + ttl > t: eviction by other gets is never seen |
| PolicyCache.PolicyCache.constructor | policy-engine/src/cache.rs:15-20 | a new cache is empty |
| PolicyCache.PolicyCache.Get | policy-engine/src/cache.rs:22-27 | evicts, and answers as the log does |
| PolicyCache.PolicyCache.Set | policy-engine/src/cache.rs:29-40 | stores the decision until now + ttl, and logs it |
| PolicyCache.PolicyCache.EvictExpired | policy-engine/src/cache.rs:42-45 | keeps exactly the entries with an expiry after now |
| Rfc3339.ToCivil | auth-service/internal/store/sqlite.go:100-101 | every instant of a four-digit year has a valid date and time that counts back to it |
| Rfc3339.YearsAddUp | auth-service/internal/store/sqlite.go:100-101 | the days before a year in closed form: every fourth year is a leap year, of the centuries only every fourth |
| Rfc3339.MonthTable | auth-service/internal/store/sqlite.go:100-101 | the lengths of the months as a table |
| Rfc3339.CivilBack | auth-service/internal/store/sqlite.go:100-101 | every valid date and time is that of its instant |
| Rfc3339.Epoch | auth-service/internal/store/sqlite.go:100-101 | the text of the Unix epoch is 1970-01-01T00:00:00Z |
| Rfc3339.LeapMarch | auth-service/internal/store/sqlite.go:100-101 | the text of a first of March after a leap day |
| Rfc3339.FourDigitYears | auth-service/internal/store/sqlite.go:100-101 | the instants whose year has four digits are the first 315569520000 seconds |
| Rfc3339.EarlierIsLess | auth-service/internal/store/sqlite.go:522-528 | the order of dates and times, field by field, is that of the instants |
| Rfc3339.TextOrdered | auth-service/internal/store/sqlite.go:522-528 | an earlier date and time has a smaller text |
| Rfc3339.FormatOrder | auth-service/internal/store/sqlite.go:522-580 | comparing two texts compares the instants, and equal texts are equal instants |
| Rfc3339.ParseFormat | auth-service/internal/store/sqlite.go:153-161 | what was written is read back as the same second |
| Rfc3339.Rfc3339Faithful | auth-service/internal/store/sqlite.go:522-580 | both together, as the stores rely on them |
| StoreInvariants.PurgeInvisible | auth-service/internal/store/store.go:228-262 | a purge at t returns exactly how many sessions it removes, removes exactly those over at t, and changes no listing at t or later |
| StoreInvariants.ExpiryBoundary | auth-service/internal/store/store.go:235-255 | at exactly its expiry time a session is not listed any more and not purged yet |
| StoreInvariants.SessionExactly | auth-service/internal/store/store.go:148-179 | the session the in-memory store keeps is the one it returns, with exactly the reading of the clock and exactly the time to live after it; a time to live that is not positive is refused |
| StoreInvariants.SessionLives | auth-service/internal/store/store.go:228-262 | it is listed, for its owner only, until exactly its time to live is over, and survives any purge until then |
| StoreInvariants.NewUserExactly | auth-service/internal/store/store.go:48-72 | the user the in-memory store keeps is the one it returns, both times exactly the reading of the clock, under the next ID; refused iff somebody has the name |
| StoreInvariants.UpdateExactly | auth-service/internal/store/store.go:110-134 | an update writes the given fields and exactly the reading of the clock, and keeps ID and creation time; refused iff the user is missing or somebody else has the name |
| StoreInvariants.WithoutUserMeans | auth-service/internal/store/store.go:216-226 | deleting a user's sessions leaves those of others and those with the token to keep, unchanged |
| StoreInvariants.TruncMeans | auth-service/internal/store/sqlite.go:100-101 | a text keeps the whole seconds of 1000000000 nanoseconds |
| StoreInvariants.ReadExactly | auth-service/internal/store/sqlite.go:424-435 | what is read back has every field of the row, the timestamps as whole seconds |
| StoreInvariants.NewRowExactly | auth-service/internal/store/sqlite.go:85-123 | SQLite returns a new user with the exact times and keeps their seconds; refused iff some row has the name |
| StoreInvariants.SessionRowExactly | auth-service/internal/store/sqlite.go:350-394 | likewise a new session, whatever its time to live; refused iff some row has the token |
| StoreInvariants.UpdatedRowExactly | auth-service/internal/store/sqlite.go:266-325 | an update writes the given fields and the second of the clock reading, and replies with the row read back |
| StoreInvariants.RowsMean | auth-service/internal/store/sqlite.go:503-591 | which rows are listed, survive a purge, and survive the deletion of a user's sessions |
| MemoryStore.InMemoryStore.constructor | auth-service/internal/store/store.go:39-46 | the store begins empty, with both counters at one |
| MemoryStore.InMemoryStore.FindByName | auth-service/internal/store/store.go:52-56 | the loop over the map finds an object of the name if there is one, whatever the order |
| MemoryStore.InMemoryStore.CreateUser | auth-service/internal/store/store.go:48-72 | refuses a taken name; otherwise stores a fresh object under the next ID and changes nothing else |
| MemoryStore.InMemoryStore.GetUser | auth-service/internal/store/store.go:74-83 | the stored object itself, or not found |
| MemoryStore.InMemoryStore.GetUserByUsername | auth-service/internal/store/store.go:85-95 | the stored object of that name, or not found iff there is none |
| MemoryStore.InMemoryStore.ListUsers | auth-service/internal/store/store.go:97-108 | every object of the role, or every object, exactly once |
| MemoryStore.InMemoryStore.UpdateUser | auth-service/internal/store/store.go:110-134 | writes only the stored object, in place, so every holder sees it; refuses an unknown ID or a name somebody else has; never changes an object's ID or creation time |
| MemoryStore.InMemoryStore.DeleteUser | auth-service/internal/store/store.go:136-146 | removes exactly that key, or reports it missing |
| MemoryStore.InMemoryStore.CreateSession | auth-service/internal/store/store.go:148-179 | refuses a time to live that is not positive; otherwise stores the session under the next ID |
| MemoryStore.InMemoryStore.GetSessionByToken | auth-service/internal/store/store.go:181-191 | a stored session with the token, or not found iff there is none |
| MemoryStore.InMemoryStore.GetSessionByID | auth-service/internal/store/store.go:193-202 | the session of that ID, or not found |
| MemoryStore.InMemoryStore.DeleteSession | auth-service/internal/store/store.go:204-214 | removes exactly that session, or reports it missing |
| MemoryStore.InMemoryStore.DeleteSessionsByUserID | auth-service/internal/store/store.go:216-226 | removes exactly the user's sessions with another token |
| MemoryStore.InMemoryStore.ListSessionsByUserID | auth-service/internal/store/store.go:228-245 | exactly the user's unexpired sessions, once each, newest first |
| MemoryStore.InMemoryStore.DeleteExpiredSessions | auth-service/internal/store/store.go:247-262 | removes exactly the sessions that are over and returns how many |
| SqliteStore.ScanUserReads | auth-service/internal/store/sqlite.go:138-163 | a user row the store has written is always read, and as what was written |
| SqliteStore.ScanSessionReads | auth-service/internal/store/sqlite.go:451-477 | so is a session row |
| SqliteStore.SQLiteStore.constructor | auth-service/internal/store/sqlite.go:48-79 | in a new file the tables begin empty, and RFC 3339's texts are faithful |
| SqliteStore.SQLiteStore.Open | auth-service/internal/store/sqlite.go:48-79 | in a file a store has written, the tables keep their rows and counters |
| SqliteStore.SQLiteStore.CreateUser | auth-service/internal/store/sqlite.go:85-123 | the UNIQUE constraint, or a row under the next key; the object returned keeps the fraction of a second the row loses |
| SqliteStore.SQLiteStore.GetUser | auth-service/internal/store/sqlite.go:125-164 | the row of that key to the second, or not found |
| SqliteStore.SQLiteStore.GetUserByUsername | auth-service/internal/store/sqlite.go:166-205 | a row of that name, or not found iff there is none |
| SqliteStore.SQLiteStore.UpdateUser | auth-service/internal/store/sqlite.go:266-325 | no such row, the UNIQUE constraint, or the row rewritten except for its key and creation time and then read back |
| SqliteStore.SQLiteStore.DeleteUser | auth-service/internal/store/sqlite.go:327-348 | deletes exactly that row, or reports that there was none |
| SqliteStore.SQLiteStore.CreateSession | auth-service/internal/store/sqlite.go:350-394 | the UNIQUE constraint on the token, or a row under the next key, whatever the time to live |
| SqliteStore.SQLiteStore.GetSessionByToken | auth-service/internal/store/sqlite.go:396-436 | a row with that token, or not found iff there is none |
| SqliteStore.SQLiteStore.GetSessionByID | auth-service/internal/store/sqlite.go:438-478 | the row of that key to the second, or not found |
| SqliteStore.SQLiteStore.DeleteSession | auth-service/internal/store/sqlite.go:480-501 | deletes exactly that row, or reports that there was none |
| SqliteStore.SQLiteStore.DeleteSessionsByUserID | auth-service/internal/store/sqlite.go:503-515 | deletes exactly the user's rows with another token |
| SqliteStore.SQLiteStore.RowsLeft | auth-service/internal/store/sqlite.go:577-580 | the rows a comparison of texts leaves are those whose second is not before that of the clock |
| SqliteStore.SQLiteStore.SelectListed | auth-service/internal/store/sqlite.go:522-528 | selecting and ordering by texts selects and orders by seconds |
| SqliteStore.SQLiteStore.ListSessionsByUserID | auth-service/internal/store/sqlite.go:517-571 | all qualifying rows, once each, read back without error, newest first |
| SqliteStore.SQLiteStore.DeleteExpiredSessions | auth-service/internal/store/sqlite.go:573-591 | deletes exactly the rows of an earlier second and returns how many |
| StoreSimulation.StepRelated | auth-service/internal/store/sqlite.go:85-591 | one call on related stores, with the same clock reading and token, gives related stores and replies that agree, except for a session memory has already purged and for the number of sessions a purge counts |
| StoreSimulation.TtlAgreeIff | auth-service/internal/store/sqlite.go:350-394 | with a fresh token the two stores agree on `CreateSession` iff the time to live is positive |
| StoreSimulation.Simulation | auth-service/internal/store/store.go:48-262 | after every trace: equal users up to truncation, equal IDs given out, every session in memory also in SQLite, and every extra row expired |
| StoreSimulation.TraceRepliesAgree | auth-service/internal/store/store.go:13-27 | every call of a trace is answered alike by both stores, with the same two exceptions |
| StoreSimulation.ListingsRelated | auth-service/internal/store/sqlite.go:522-528 | SQLite lists exactly those of the sessions listed in memory that last into a later second, in particular all with a second left |
| StoreSimulation.OrderRelated | auth-service/internal/store/store.go:240-242 | an order that is newest first in memory is newest first for SQLite |
| StoreSimulation.PurgeRelated | auth-service/internal/store/sqlite.go:577-580 | SQLite purges only what memory purges |
| StoreSimulation.PurgeCountsRelated | auth-service/internal/store/sqlite.go:573-591 | while no row is left over SQLite purges at most as many sessions as memory, and as many iff none has expired within the current second |
| StoreSimulation.GetUserRelated | auth-service/internal/store/store.go:74-83 | a user is found in both stores or in neither, and is the same to the second |
| StoreSimulation.TokensStayDistinct | auth-service/internal/store/sqlite.go:58-67 | after every trace no two rows have the same token |
| StoreSimulation.TokenLookupRelated | auth-service/internal/store/sqlite.go:396-436 | after every trace a lookup by token that succeeds in both stores finds the same session, to the second; one that succeeds only in SQLite finds an expired one |
| StoreSimulation.TokenFoundInBoth | auth-service/internal/store/store.go:181-191 | after every trace a token found in memory is found in SQLite |
| StoreSimulation.GetSessionRelated | auth-service/internal/store/store.go:193-202 | a session is the same in both stores to the second; one that only SQLite finds has expired |
| Stores.DoEffect | auth-service/internal/store/store.go:13-27 | with either store, which users and sessions a call adds, rewrites or deletes, in every field but the timestamps; when a call on a user or a deletion fails, and with which error; a call that fails changes nothing |
| Stores.DoDetails | auth-service/internal/store/store.go:13-27 | either store keeps the timestamps it is given, to the second, and replies with what it has stored; refuses a session only for its time to live or its token; a purge counts what it removes, removes only what is over, and everything that has been over for a second |
| Stores.EffectInv | auth-service/internal/store/store.go:13-27 | from that alone: names stay unique, no ID is used twice, what a record is born with never changes |
| Stores.StepMemInv | auth-service/internal/store/store.go:48-262 | every call on the in-memory store keeps usernames unique, keys equal to IDs, and IDs below the counters |
| Stores.StepContinues | auth-service/internal/store/store.go:110-134 | no call on either store reuses an ID, changes a user's ID or creation time, or changes a session |
| Stores.RunContinues | auth-service/internal/store/store.go:48-262 | nor does any sequence of calls |
| Handlers.TtlExactIff | auth-service/internal/handler/auth.go:87-92 | the time to live is the hours asked for iff there are at most 2562047 of them; beyond that the int64 product wraps |
| Handlers.SessionTtlMeans | auth-service/internal/handler/auth.go:87-92 | 86400000000000 nanoseconds when SESSION_TTL is unset or not positive; otherwise 3600000000000 for each hour asked for |
| Handlers.Wrap64Means | auth-service/internal/handler/auth.go:90 | the int64 product is the number in range that differs from the exact product by a multiple of 2^64 |
| Handlers.RolesAre | auth-service/internal/handler/admin.go:98-102 | the valid roles are admin, developer and viewer |
| Handlers.StepInv | auth-service/internal/handler/auth.go:39-319 | with either store, every step of every request keeps: sessions belong to IDs given out, and what a request holds is what it fetched or is gone |
| Handlers.RunInv | auth-service/internal/handler/auth.go:39-319 | so does every interleaving |
| Handlers.RequestProgress | auth-service/internal/handler/auth.go:39-319 | every step of a request brings its answer nearer and nobody else's puts it off: no handler takes more than four steps |
| Handlers.OnlySuccessWrites | auth-service/internal/handler/auth.go:94-98 | only the step that answers with success changes the store; a request answered 400 or above has changed nothing |
| Handlers.AloneIsRun | auth-service/internal/handler/auth.go:39-319 | what a request comes to by itself is a run of at most four steps |
| Handlers.WhoDeletes | auth-service/internal/handler/auth.go:201-253 | with either store and under any interleaving a session disappears only by a request of its owner: it is the very session fetched, or its token is not the one to keep |
| Handlers.DeleteOneExactly | auth-service/internal/handler/auth.go:201-223 | a deletion removes at most the session it fetched, which still belongs to the user it looked up; 204 iff it was still there, 500 otherwise |
| Handlers.NoInheritedSessions | auth-service/internal/store/store.go:136-179 | with either store, a session of a user created later is created later, whatever was deleted and created again in between |
| Handlers.NewUserHasNoSession | auth-service/internal/handler/admin.go:119-139 | with either store, a user that has just been created has no session |
| Outcomes.LastStep | auth-service/internal/handler/auth.go:39-319 | in any world, whatever has run before, the last step of a request does and answers what the rows below say of `Finish` |
| Outcomes.LoginWrites | auth-service/internal/handler/auth.go:94-103 | the session a login opens, field by field, ending exactly its time to live after the clock reading; 500 iff the in-memory store is given a time to live that is not positive or SQLite a token in use, and 200 otherwise |
| Outcomes.PasswordWrites | auth-service/internal/handler/auth.go:311-318 | 500 and no change iff the user is gone or somebody else has its name; otherwise 200, and exactly the user is rewritten as read, with the new hash |
| Outcomes.EditWrites | auth-service/internal/handler/admin.go:251-270 | 500 if the user is gone, 409 if somebody else has the name; otherwise 200, and every field is what was asked for, or else what was read |
| Outcomes.DeleteOneWrites | auth-service/internal/handler/auth.go:218-223 | 204 and that session is gone, or 500 and no change if it was gone already |
| Outcomes.DeleteAllWrites | auth-service/internal/handler/auth.go:250-255 | 204; the user's sessions with another token are gone and nothing else has changed |
| Outcomes.LoginOutcome | auth-service/internal/handler/auth.go:65-103 | uninterrupted: 400 iff a field is blank, 401 iff nobody has the name or the password does not match, otherwise what opening the session comes to |
| Outcomes.LoginLasts | auth-service/internal/handler/auth.go:87-98 | uninterrupted, in memory: the new session ends exactly 86400 seconds after the clock reading, or 3600 for each hour asked for |
| Outcomes.LoginLastsSqlite | auth-service/internal/handler/auth.go:87-98 | on SQLite: the row says exactly so many seconds after the second of the clock reading |
| Outcomes.SessionsOutcome | auth-service/internal/handler/auth.go:136-175 | listing one's sessions changes nothing; 404 iff there is no such user, 200 otherwise |
| Outcomes.DeleteOneOutcome | auth-service/internal/handler/auth.go:195-223 | uninterrupted: 400 for an ID that is not positive, 404 iff there is no such user or it owns no such session, otherwise 204 and exactly that session is gone |
| Outcomes.DeleteAllOutcome | auth-service/internal/handler/auth.go:238-255 | uninterrupted: 400 without a token to keep, 404 without such a user, otherwise the deletion |
| Outcomes.PasswordOutcome | auth-service/internal/handler/auth.go:288-318 | uninterrupted: 400, 404, 401, or 200 and the hash alone has changed |
| Outcomes.NewUserOutcome | auth-service/internal/handler/admin.go:93-139 | uninterrupted: 400 iff name or password is blank or the role is not admin, developer or viewer; 409 iff the name is taken; otherwise 201 and exactly that user is new |
| Outcomes.EditOutcome | auth-service/internal/handler/admin.go:195-270 | uninterrupted: 400 for an ID that is not positive or a role that is not admin, developer or viewer; 404; 409 iff somebody else has the name asked for; otherwise 200 with the fields asked for |
| Outcomes.RemoveUserOutcome | auth-service/internal/handler/admin.go:285-301 | uninterrupted: 400, 404, or 204 and exactly that user is gone |
| Handlers.RunRoles | auth-service/internal/handler/admin.go:98-251 | with either store, from valid roles every role ever stored, of a user or in a session, is admin, developer or viewer |
| LostUpdates.StoredIsLast | auth-service/internal/store/store.go:128-131 | a user is what its last successful update left, or what it was |
| LostUpdates.RunUpToDate | auth-service/internal/store/store.go:85-95 | with the in-memory store, what a request holds of a stored user is the user as it is now |
| LostUpdates.CaptureSettles | auth-service/internal/handler/auth.go:311 | the values a request will write are those stored at the moment it takes them: when it reads the shared object, or when it fetches the copy; nothing changes them later |
| LostUpdates.OverwritesNothingIff | auth-service/internal/handler/auth.go:293-315 | with either store, a successful password change or edit leaves what it was not asked to change as it finds it, iff the last update of the user since it took its values, if any, agrees with them |
| LostUpdates.SessionCurrentIff | auth-service/internal/handler/auth.go:94 | a login's session has the name and role the user has at that moment iff the last update since the login took them left them alone |
| LostUpdates.LoginOpensOne | auth-service/internal/handler/auth.go:75-98 | under any interleaving a login answered 200 has compared the password with the hash of the user it fetched and opens exactly one session, of that user |
| Races.RoleChangeUndone | auth-service/internal/handler/auth.go:293-315 | from either empty store, a run in which an administrator's role change and a password change are both answered 200 and the role is the old one |
| Races.PasswordRestored | auth-service/internal/handler/admin.go:217-251 | from either empty store, a run in which a password change and an edit of the name are both answered 200 and the old password hash is back |
| Races.DifferentAnswers | auth-service/internal/handler/auth.go:311-315 | one and the same run, in which a password change is answered 200 with the in-memory store and 500 with SQLite |
| Races.DivergenceIsOrderly | auth-service/internal/store/store.go:85-134 | that run is orderly, and a step of it changes something that a request has still to read |
| HandlerMethods.AuthHandler.LoginHandler | auth-service/internal/handler/auth.go:64-103 | the handler's code on the in-memory store leaves and answers what its request comes to by itself |
| HandlerMethods.AuthHandler.DeleteSessionHandler | auth-service/internal/handler/auth.go:195-223 | so does this one's; without another request in between it never answers 500 |
| HandlerMethods.AuthHandler.DeleteAllSessionsHandler | auth-service/internal/handler/auth.go:238-255 | so does this one's |
| HandlerMethods.AuthHandler.PasswordChangeHandler | auth-service/internal/handler/auth.go:288-318 | so does this one's, writing user objects only; without another request in between it never answers 500 |
| HandlerMethods.AuthHandler.CreateUserHandler | auth-service/internal/handler/admin.go:93-139 | so does this one's |
| HandlerMethods.AuthHandler.UpdateUserHandler | auth-service/internal/handler/admin.go:195-270 | so does this one's, writing at most the one object |
| HandlerMethods.AuthHandler.DeleteUserHandler | auth-service/internal/handler/admin.go:285-301 | so does this one's |
| SqliteHandlerMethods.AuthHandler.LoginHandler | auth-service/internal/handler/auth.go:64-103 | the handler's code on the SQLite store, as the server runs it, leaves the tables and answers what its request comes to by itself |
| SqliteHandlerMethods.AuthHandler.DeleteSessionHandler | auth-service/internal/handler/auth.go:195-223 | so does this one's; without another request in between it never answers 500 |
| SqliteHandlerMethods.AuthHandler.DeleteAllSessionsHandler | auth-service/internal/handler/auth.go:238-255 | so does this one's |
| SqliteHandlerMethods.AuthHandler.PasswordChangeHandler | auth-service/internal/handler/auth.go:288-318 | so does this one's; without another request in between it never answers 500 |
| SqliteHandlerMethods.AuthHandler.CreateUserHandler | auth-service/internal/handler/admin.go:93-139 | so does this one's |
| SqliteHandlerMethods.AuthHandler.UpdateUserHandler | auth-service/internal/handler/admin.go:195-270 | so does this one's |
| SqliteHandlerMethods.AuthHandler.DeleteUserHandler | auth-service/internal/handler/admin.go:285-301 | so does this one's |
| SqliteHandlers.FoundIsWhole | auth-service/internal/store/sqlite.go:166-205 | a lookup by name finds the same user in both stores, to the second, or none |
| SqliteHandlers.MoverAlike | auth-service/cmd/server/main.go:34-48 | the step of a request does to SQLite what it does to the in-memory store, leaves the request in the same place and gives the same status |
| SqliteHandlers.DisturbedMeans | auth-service/internal/handler/auth.go:75-94 | an update changes what a request has still to read iff it is of the user it holds and changes the name, the role, or, before the password is checked, the hash; for an edit, those it does not set itself |
| SqliteHandlers.StepAlikeIff | auth-service/internal/store/store.go:85-134 | after a step the two worlds are still alike iff it did not change something that some request has still to read |
| SqliteHandlers.AlikeIffUndisturbed | auth-service/internal/store/store.go:85-134 | with positive times to live and fresh tokens, the two worlds are alike all along a run iff none of its steps does |
| SqliteHandlers.SameAnswers | auth-service/cmd/server/main.go:34-48 | from empty stores, in such a run, every request is answered on SQLite as on the in-memory store, and both hold the same users and sessions, to the second |

## Left out

- HTTP: methods, headers, JSON decoding, path values, response bodies, the login rate limiter and request logging. A handler begins where its input has been decoded; of an answer only the status is kept.
- JWT and bcrypt: the password check is an arbitrary predicate, the claims are an input username, the hash of a new password is an input; their failures (500) are not modelled.
- The SQL engine, the driver and errors other than uniqueness and no rows. Statements have their meaning on tables. Foreign keys are not enforced, which is SQLite's default and what the connection uses.
- Random tokens may be any strings; that they are fresh is assumed only where the SQLite simulation says so.
- Four-digit years: the SQLite methods require clock readings and expiry times whose text has a four-digit year. A time to live of more than some 8000 years is therefore not covered; the int64 nanoseconds of a `time.Duration` cannot express one. That a row with a longer year cannot be read back is not modelled; what is proved of the handlers apart from `SqliteHandlers` does not depend on timestamps.
- The int64 IDs and counters of the stores and the u32 and u64 counters and sums of the Rust examples do not wrap; the product of `SESSION_TTL` and the overflow of a `Duration` in the back-off are modelled.
- The order in which a Go map or a SELECT without ORDER BY is iterated is arbitrary, as is the order of sessions created at the same time.
- SQLite's `ListUsers`, the handlers that only read users (`GetUserHandler`, `ListUsersHandler`, `MeHandler`), and the body `SessionsHandler` returns: they would only add easy members.
- LostUpdates.CaptureSettles: ID, name and role (and for an edit the hash) of a shared object are read in one step; an update that falls between the read of two of these fields is a data race and is not modelled.
- SqliteHandlers.SameAnswers: no request purges expired sessions (nothing in the repository calls `DeleteExpiredSessions` outside tests), so rows that only SQLite still holds do not occur there; `StoreSimulation` covers them.
- SqliteStore.SQLiteStore.Open: rows that no store of this kind has written, such as those of an older schema with an empty `updated_at`, which the scan cannot parse.
- StoreSimulation.StepRelated: as for TraceRepliesAgree.
- StoreSimulation.TraceRepliesAgree: the replies to `DeleteSession` of a session memory has already purged, and the numbers of purged sessions, may differ.
- The outcome of a job function in the retry queue is a function of job and attempt. As no such pair is called twice (RetryOutcome.CallsInOrder) this covers functions with interior state as well. Printing and the sleep the example skips are left out.
- Capacity-0 rendezvous channels: deadlock freedom is stated for capacities of at least one. Lock poisoning cannot happen in the pool, since no job runs under the lock. Nothing is assumed about fairness: progress means that somebody can move and that every move lowers a measure.
- Creating threads takes no step: all workers exist from the beginning. The single-worker baseline of the fan-out example is the case of one worker.
- `Instant` and `Duration` overflow in the cache, and the standard library's hash maps and channels themselves.
- `parser.rs` and serde, `rbac`, the audit logger, the middleware, `cleanup.go`, `shared-counter.rs`, `concurrent-cache.rs`: they would add only easy or finite claims.
