# Verified models of the ETL service's stateful cores

Each module states what one component does, step by step, and proves what every run of it keeps.
Where the source changes fields in place, a class with the same fields carries the source's loops,
and each of its methods is proved to perform exactly one step of the machine the theorems are about.

| file | component |
|---|---|
| `SessionPoolModel.dfy`, `SessionPoolSafety.dfy`, `SessionPoolOwnership.dfy`, `SessionPoolOrder.dfy`, `SessionPoolAnswers.dfy`, `SessionPool.dfy` | the HTTP session pool |
| `LockOrdering.dfy`, `CircularWaits.dfy` | ordered timed locks, the deadlock detector's records, and when threads deadlock |
| `CircuitBreaker.dfy` | the service circuit breaker |
| `ResponseStats.dfy` | lock-free average, response-time window, percentile |
| `ConfigIndex.dfy`, `ConfigCollisions.dfy`, `ConfigValues.dfy`, `ConfigManagement.dfy`, `MonitoringDocument.dfy` | the flat configuration map |
| `JsonEscape.dfy` | three JSON string escapers |
| `PathNormalization.dfy`, `PercentDecoding.dfy` | the request validator's path handling |
| `Fnv1a.dfy` | the compile-time string hash |
| `ResourceGuards.dfy` | cleanup ownership |
| `RetryQueue.dfy` | the notification retry queue |
| `Common.dfy` | folds over runs, options, hexadecimal digits |

`dafny verify dfyconfig.toml` checks everything.

## How the source is read

- **Steps.** A step is what one call does while it holds its mutex. `acquireConnection` gives the
  pool mutex up while it waits, so it is two steps: up to the wait, and from the wait on.
- **Time.** A clock is a function from the number of readings taken so far to a time. Theorems that
  need it say `Monotone(clock)`; the others hold for any clock. `duration_cast<seconds>` truncates.
- **Identity.** Session objects and queued requests are named by their creation numbers.
- **Foreign outcomes.** Whether `session->run()` throws, what `isIdle()` and `getLastActivity()`
  answer, whether a timed lock is granted in time, whether a compare-exchange fails spuriously, and
  what a moved-from object holds are inputs: every theorem is about all of them.
- **Numbers.** Doubles are reals. `int` is a 32-bit range and `size_t` in the hash is arithmetic
  modulo 2^64, both written out. Counters that the theorems bound are integers.
- **Text.** A byte is a character; UTF-8 is not interpreted, except by the JSON scanner when it
  decodes a `\u` escape.
- **Lock rule.** `validateLockOrdering` (`src/lock_utils.cpp:221-255`) refuses a lock only when one
  of a strictly higher level is registered, though the comment at `include/lock_utils.hpp:61` speaks
  of ascending order. The model follows the code, so equal levels are admitted.
- **Shared mutexes.** The C++ standard leaves open whether a shared mutex refuses readers while a
  writer waits. `Rules.writersFirst` says which, and every theorem about locks is about both kinds.
- **JSON objects.** The library keeps the members of an object sorted by key and iterates them in that
  order, whatever the order in the file. A tree has its members in the order of iteration;
  `SortedTree` says that this is by key, and only the theorems about which leaf wins need it.
- **Retry delay.** `RetryQueueManager` keeps a reference to its configuration
  (`include/notification_service_recovery.hpp:296`). The theorems about it assume that
  `baseRetryDelay` is not changed while the manager lives.

## Where the code does less than one would expect

Each of these is a theorem about the code as it is, with the exact condition where there is one.

- The lock-ordering detector does not prevent deadlock. What is left to the callers is exact
  (`CircularWaitExactly`): a circular wait, in which no thread can be granted what it wants, is
  reachable if and only if the callers' nestings of locks of one level form a cycle, each wanting what
  the next one holds, or a shared lock is taken twice above another level. Two shared locks meet in
  such a cycle only where waiting writers go first; so two mutexes of one level, locked in both
  orders, can deadlock if and only if both locks are exclusive or writers go first
  (`EqualLevelsCanDeadlock`), and shared locks alone are safe otherwise (`SharedLocksAreSafe`).
- A lock that times out leaves its registration behind. It survives until the thread locks that mutex
  in that mode and unlocks it again, and no longer (`StaleSurvivesExactly`); meanwhile every lock of
  a strictly lower level is refused (`RegisteredLevelRefusesExactly`).
- A queued request can get two sessions (`RequestServedTwice`): a thread that wakes to a session has
  its second one if and only if its entry had been handed one from the queue, and there is never a
  third (`SecondSessionExactly`, `AtMostTwoSessions`).
- Requests do not always leave the queue in arrival order. The scan of a timed-out waiter reads the
  clock again for each entry, so it can skip the head and answer a later entry (`ScanCanSkip`). A run
  keeps arrival order if and only if, in every such scan, the head is expired at the first reading or
  no entry is expired at its own (`ArrivalOrderExactly`); that is so when the waiter's own entry is
  still queued or the clock shows one time during the scan.
- `iterativePercentDecode` documents decoding until no changes occur or a safe iteration limit is
  reached. The limit is five passes; it cuts decoding short if and only if the encoding depth of the
  input, computed in one reading of it, is more than five (`LimitIsHarmlessExactly`). So a text
  encoded six times over does not come back (`DeepEncodingSurvives`).
- `percentDecode` documents possible null bytes in its result; the code writes `?` for them, so it
  inverts percent-encoding if and only if there is no control character (`DecodeInvertsEncode`).
- `escapeJson` of the response builder documents that other control characters are left unchanged;
  the code writes them as `\u00XX`. It does what its comment says if and only if the string has no
  control character but newline, carriage return and tab (`CommentHoldsExactly`).
- `fnv1a_hash` converts a signed `char`, so bytes from 0x80 on are sign-extended. It is the published
  hash on exactly these texts: ASCII, and those before whose last such byte the states of the two
  algorithms differ in exactly the upper 56 bits (`StandardExactly`). With one such byte it never is
  (`OneHighByteIsNeverStandard`); with two adjacent ones it is if and only if the low byte of the hash
  before them is the first of them less 0x80 (`TwoHighBytesExactly`), as for a comma followed by
  U+02C0 (`SomeNonAsciiIsStandard`).
- Configuration keys that are empty or contain dots can overwrite each other (`DotsCollide`). Of the
  leaves with one dotted path the index holds the one whose key is longer where the paths first
  differ (`WinnerIsStored`), so a leaf is found if and only if that one has its text
  (`LeafIsFoundExactly`). All leaves are found if and only if no two with one dotted path have
  different texts (`AllLeavesAreFoundExactly`).
- An unsigned 64-bit number in a document that `long long` cannot hold is stored as its two's
  complement (`GetIntIsWalk`).
- The retry scan stops at the first entry that is not due. It is complete at every time if and only if
  the queue is sorted by retry time (`CompleteExactlyWhenSorted`), and that holds if and only if the
  clock readings that stamped the queued entries show times in order (`SortedExactlyByStamps`); a
  system clock set back breaks it (`ClockSetBackHidesDueEntry`).

## Model

| member | source | states |
|---|---|---|
| SessionPoolSafety.EveryRunIsSafe | src/connection_pool_manager.cpp:41-366 | after any interleaving of acquire, wake, release, cleanup, shutdown and reset: active + idle never exceeds maxConnections, the queue never exceeds maxQueueSize, every created session is in exactly one of active, idle and dropped and no idle session is listed twice, every queued entry is accounted for once, and the queue or the idle list is empty |
| SessionPoolSafety.NextKeepsSessions | src/connection_pool_manager.cpp:41-366 | each step, from any state that satisfies the session invariant, keeps it, including that a pool that was shut down is empty |
| SessionPoolSafety.NextKeepsRequests | src/connection_pool_manager.cpp:126-175 | each step keeps the queue bound and the accounting of entries: queued once or departed once, never both |
| SessionPoolSafety.NextKeepsNoIdleWhileQueued | src/connection_pool_manager.cpp:240-271 | no step leaves an idle session beside a queued request |
| SessionPoolSafety.DrainLeavesOneEmpty | src/connection_pool_manager.cpp:534-594 | processing the queue empties the queue or the idle list, whatever expires or throws on the way |
| SessionPoolSafety.EverySessionIsSomewhere | src/connection_pool_manager.cpp:447-467 | sessions created over all statistics periods = active + idle + dropped, in every run |
| SessionPoolSafety.EachEntryLeavesOnce | src/connection_pool_manager.cpp:534-629 | in every run, an entry ever queued is still queued or has left the queue, exactly once in all, and a ticket never issued is neither |
| SessionPoolSafety.ShutdownIsFinal | src/connection_pool_manager.cpp:335-366 | once shut down, active and idle stay empty after every later sequence of steps, also those of threads already waiting |
| SessionPoolSafety.WaiterAcquiresAfterItsEntryLeft | src/connection_pool_manager.cpp:181-203 | a waiter that wakes to an idle session finds the request queue empty and its own entry among those that left |
| SessionPoolSafety.SecondSessionExactly | src/connection_pool_manager.cpp:181-203 | in every run, a session acquired on waking is the second one of its request if and only if the log says that its entry was handed one; otherwise the entry had been refused |
| SessionPoolSafety.AtMostTwoSessions | src/connection_pool_manager.cpp:135-203 | in every run, no queued request gets more than two sessions, and two exactly when it was handed one and its thread was given one on waking |
| SessionPoolSafety.FreshIsSubsequence | src/connection_pool_manager.cpp:301-322 | the rebuilt idle queue holds no session twice and none that was not idle before |
| SessionPoolOwnership.AcquiredIsExclusive | src/connection_pool_manager.cpp:62-87 | the session an acquire answers with, at once or on waking, is the one idle longest or one that never existed before; nobody had it, and afterwards it is active and not idle |
| SessionPoolOwnership.OneOwnerAtATime | src/connection_pool_manager.cpp:41-272 | if two steps of a run give one session out, to a caller or to a queued request, it was released in between |
| SessionPoolOwnership.UnusableNeverReturns | src/connection_pool_manager.cpp:240-271 | a session released unusable is in no later state idle or active, and no later step gives it out |
| SessionPoolOwnership.UsableStays | src/connection_pool_manager.cpp:243-261 | a session released usable is idle again, last in line, or went to a queued request; it is let go of only if starting it for that request failed |
| SessionPoolOwnership.HandedIsStarted | src/connection_pool_manager.cpp:559-592 | a queued request that is handed a session keeps it active, unless starting it fails: then it is dropped |
| SessionPoolOwnership.NothingAfterShutdown | src/connection_pool_manager.cpp:335-366 | after a shutdown, in every later state, no step gives a session out, and every new and every waiting caller is told so |
| SessionPoolAnswers.AnswerExactly | src/connection_pool_manager.cpp:41-139 | which answer an acquire gets, as an equivalence on the state before it for each answer |
| SessionPoolAnswers.WaitingIsQueued | src/connection_pool_manager.cpp:126-139 | a request that waits is queued last with its stamp, and waits maxWait seconds from then |
| SessionPoolAnswers.ResumeExactly | src/connection_pool_manager.cpp:135-203 | a waiting thread is told of the shutdown, given a session, or sent away exactly at its deadline without one; otherwise nothing about it changes |
| SessionPoolAnswers.DepartedForAReason | src/connection_pool_manager.cpp:534-629 | whatever entry leaves the queue was looked at in that step; it was refused if it had then waited maxWait seconds and handed a session if it had not |
| SessionPoolAnswers.SweepLeavesUnexpired | src/connection_pool_manager.cpp:596-629 | after the sweep nothing queued has waited maxWait seconds |
| SessionPoolAnswers.TimeOutExactly | src/connection_pool_manager.cpp:152-178 | a timed-out waiter refuses the first entry that is expired when looked at, and the ones before it go behind the ones after it |
| SessionPoolAnswers.ExpiredExactly | src/connection_pool_manager.cpp:541-544 | an entry is expired exactly from maxWait whole seconds after its stamp |
| SessionPoolAnswers.CleanupKeepsExactly | src/connection_pool_manager.cpp:520-532 | cleanup keeps exactly the sessions that have been idle for less than the timeout when looked at |
| SessionPoolAnswers.StatisticsExactly | src/connection_pool_manager.cpp:435-443 | how each step moves the rejected and the reuse count, in terms of entries refused, entries handed a session, callers turned away and callers given an idle session; a reset zeroes the three counters and touches nothing else |
| SessionPoolOrder.SweepRemovesAPrefix | src/connection_pool_manager.cpp:596-629 | on a queue sorted by queue time the sweep refuses exactly a prefix and keeps exactly the rest |
| SessionPoolOrder.OwnEntryQueuedTakesHead | src/connection_pool_manager.cpp:145-169 | a timed-out waiter whose own entry is still queued removes exactly the head of the queue |
| SessionPoolOrder.HeadOrNothingTaken | src/connection_pool_manager.cpp:155-169 | the scan takes the head or nothing exactly when the head is expired at the first reading or no entry is expired at its own |
| SessionPoolOrder.StillClockTakesHead | src/connection_pool_manager.cpp:152-175 | on a sorted queue, a scan during which the clock shows one time takes the head or nothing |
| SessionPoolOrder.NextKeepsFifo | src/connection_pool_manager.cpp:127-175 | every step whose scan takes the head keeps the queue sorted by time, in arrival order, and behind everything that already left |
| SessionPoolOrder.ArrivalOrderExactly | src/connection_pool_manager.cpp:126-629 | over a whole run, requests leave the queue in arrival order if and only if, in every timed-out scan, the head was expired at the first reading or no entry was expired at its own reading |
| SessionPoolOrder.RequestServedTwice | src/connection_pool_manager.cpp:181-203 | a reachable state in which a request already handed a session acquires it again on waking, which makes two sessions |
| SessionPoolOrder.ScanCanSkip | src/connection_pool_manager.cpp:152-175 | a run, under a clock that never goes back, in which arrival order breaks |
| SessionPool.ConnectionPoolManager.BeginAcquireConnection | src/connection_pool_manager.cpp:41-136 | performs exactly the first acquire step: shutdown, sweep, reuse, create, refuse or enqueue |
| SessionPool.ConnectionPoolManager.ResumeAcquireConnection | src/connection_pool_manager.cpp:135-213 | performs exactly the second acquire step; the tail that reports an unexpected state is unreachable |
| SessionPool.ConnectionPoolManager.CreateNewSession | src/connection_pool_manager.cpp:447-467 | yields the next session and counts it, or nothing and no change when a dependency is missing |
| SessionPool.ConnectionPoolManager.RemoveTimedOut | src/connection_pool_manager.cpp:152-178 | removes the first entry found expired and puts those it skipped behind the rest |
| SessionPool.ConnectionPoolManager.CleanupExpiredQueuedRequests | src/connection_pool_manager.cpp:596-629 | keeps the unexpired entries in order, refuses the others in order, and returns how many those were |
| SessionPool.ConnectionPoolManager.ProcessQueuedRequests | src/connection_pool_manager.cpp:534-594 | performs exactly the draining of the queue |
| SessionPool.ConnectionPoolManager.ReleaseConnection | src/connection_pool_manager.cpp:215-272 | performs exactly the release step for null, unknown, usable and unusable sessions, before and after shutdown |
| SessionPool.ConnectionPoolManager.CleanupIdleConnections | src/connection_pool_manager.cpp:294-333 | keeps exactly the sessions not idle too long at their own clock reading, in order, and returns how many it dropped |
| SessionPool.ConnectionPoolManager.Shutdown | src/connection_pool_manager.cpp:335-366 | empties idle and active once and leaves the request queue alone |
| SessionPool.ConnectionPoolManager.ResetStatistics | src/connection_pool_manager.cpp:435-443 | zeroes the three counters and nothing else |
| CircularWaits.CircularWaitExactly | src/lock_utils.cpp:221-255 | for any set of nestings of locks of one level that callers may use, and for shared mutexes with and without precedence of writers: a circular wait is reachable if and only if some nestings form a cycle, each wanting what the next one holds, with conflicting modes unless writers go first, or a shared lock is taken twice above another level |
| CircularWaits.CircularWaitStaysOnOneLevel | src/lock_utils.cpp:228-254 | all threads of a circular wait want mutexes of one level, unless a shared lock above another level is taken twice |
| CircularWaits.NoCircularWait | include/lock_utils.hpp:58-195 | with any number of threads, exclusive and shared locks and timeouts, no chain of waiting threads ever closes unless the callers' nestings are prone to it in that exact sense |
| CircularWaits.ChainsAreShort | include/lock_utils.hpp:64-69 | if no thread nests locks of one level, a chain of blocked threads has at most two threads per lock level |
| CircularWaits.SomeHolderCanMove | include/lock_utils.hpp:257-301 | under the same condition, whoever cannot be granted its lock waits, over a chain, for a thread that is not blocked or can be granted its own |
| CircularWaits.WaitingRaisesRank | include/lock_utils.hpp:144-173 | without nesting on one level, a blocked thread that another waits for wants a lock of higher level, or the same mutex exclusively |
| LockOrdering.EveryRunKeepsInv | src/lock_utils.cpp:137-178 | held locks stay registered until their destructor starts, except where a shared lock is taken twice, and a blocked thread holds only locks of lower level, or of the same level in nestings its callers use, unless it takes a lock above another level twice |
| LockOrdering.EveryRunExcludes | include/lock_utils.hpp:162-193 | no two threads ever hold conflicting locks |
| LockOrdering.TimeOutLeavesStale | include/lock_utils.hpp:168-173 | a timeout leaves the lock registered though neither held nor wanted |
| LockOrdering.StaleSurvivesExactly | src/lock_utils.cpp:155-178 | that registration survives a run if and only if the thread does not lock that mutex in that mode and unlock it again in the course of it |
| LockOrdering.RegisteredLevelRefusesExactly | src/lock_utils.cpp:221-255 | while a lock is registered, every lock of a strictly lower level is refused; if it is of the highest registered level, exactly those are |
| CircularWaits.EqualLevelsCanDeadlock | src/lock_utils.cpp:228-254 | two locks of different mutexes of one level, nested in both orders, can close a circular wait if and only if both are exclusive or waiting writers go first |
| CircularWaits.SharedLocksAreSafe | include/lock_utils.hpp:257-301 | nestings of shared locks alone, in whatever order, never deadlock where writers do not go first |
| CircularWaits.ClosedChainIsStuck | include/lock_utils.hpp:162-173 | in a circular wait no thread can be granted what it wants |
| LockOrdering.LockTable.CheckLockOrdering | src/lock_utils.cpp:137-153 | registers and lets the thread block, or refuses exactly when some registered lock is of a higher level |
| LockOrdering.LockTable.TryLockFor | include/lock_utils.hpp:156-173 | acquires if granted in time and otherwise leaves only the registration |
| LockOrdering.LockTable.UnregisterLockAcquisition | src/lock_utils.cpp:155-178 | the first half of the destructor: every entry for the lock goes, the mutex is still held |
| LockOrdering.LockTable.Release | include/lock_utils.hpp:192-194 | the second half: the mutex is free |
| CircuitBreaker.OpeningsAreATimeoutApart | include/job_monitor_service_recovery.hpp:164-243 | for any order of calls and any thresholds, two entries into OPEN are at least the timeout apart |
| CircuitBreaker.FailureBudget | include/job_monitor_service_recovery.hpp:164-243 | after any history, k consecutive admitted failures of sequential callers lasting D satisfy k <= failureThreshold + floor(D / timeout) |
| CircuitBreaker.FailureBudgetIsTight | include/job_monitor_service_recovery.hpp:208-243 | for every number of failures from the threshold up there is a sequential caller whose admitted failures number exactly failureThreshold + floor(D / timeout) |
| CircuitBreaker.FailuresSpread | include/job_monitor_service_recovery.hpp:164-230 | beyond the failures that open the breaker, each admitted failure costs one more timeout |
| CircuitBreaker.CountersStayBounded | include/job_monitor_service_recovery.hpp:186-230 | no counter ever passes the larger of 1 and its threshold, for all calls and thresholds |
| CircuitBreaker.FailureCountIsHistory | include/job_monitor_service_recovery.hpp:186-218 | in CLOSED the failure counter equals the failures since the last success and is below the threshold |
| CircuitBreaker.SuccessCountIsHistory | include/job_monitor_service_recovery.hpp:171-206 | in HALF_OPEN the success counter equals the successes since the probe began, below the threshold, with no failure since |
| CircuitBreaker.ClosesOnlyAfterEnoughSuccesses | include/job_monitor_service_recovery.hpp:194-200 | CLOSED is re-entered only by a success that completes exactly successThreshold of them since the probe, with no failure between |
| CircuitBreaker.ClosesExactly | include/job_monitor_service_recovery.hpp:194-200 | a call closes the breaker if and only if it is the success that completes successThreshold of them since a probe began, with no failure between |
| CircuitBreaker.Recovers | include/job_monitor_service_recovery.hpp:164-200 | from any history that left it OPEN: an operation is admitted if and only if the timeout has passed since the last failure, and successThreshold successes after it close the breaker, which then admits every operation |
| CircuitBreaker.OpenSinceLastFailure | include/job_monitor_service_recovery.hpp:208-230 | in OPEN the stored time is that of the last failure reported |
| CircuitBreaker.OpensAfterEnoughFailures | include/job_monitor_service_recovery.hpp:212-218 | after failureThreshold failures without a success between, the breaker is not CLOSED, and OPEN if the last call was a failure |
| CircuitBreaker.ServiceCircuitBreaker.AllowOperation | include/job_monitor_service_recovery.hpp:164-184 | admits unless OPEN with the timeout still running; afterwards it admitted exactly if not OPEN |
| CircuitBreaker.ServiceCircuitBreaker.OnSuccess | include/job_monitor_service_recovery.hpp:186-206 | performs exactly the success step |
| CircuitBreaker.ServiceCircuitBreaker.OnFailure | include/job_monitor_service_recovery.hpp:208-230 | performs exactly the failure step |
| ResponseStats.AverageIsSequentialFold | include/performance_monitor.hpp:378-403 | under any interleaving of threads, spurious failures and resets, the stored average is the sequential moving average of the samples in the order of their successful exchanges |
| ResponseStats.FailedCasMeansProgress | include/performance_monitor.hpp:394-402 | an exchange that fails, and not spuriously, proves that another store happened since this thread last read the average |
| ResponseStats.AverageWithinSamples | include/performance_monitor.hpp:378-403 | with a sample stored since the last reset, the average lies between the smallest and the largest of them |
| ResponseStats.FoldIsWeightedSum | include/performance_monitor.hpp:378-391 | the average weighs the newest sample 0.1, each older one 0.9 times as much as the next, and the first one the rest, unless it was zero on the way |
| ResponseStats.ZeroStartsAfresh | include/performance_monitor.hpp:387-391 | after a zero average the next sample is the average |
| ResponseStats.AverageCell.TryStore | include/performance_monitor.hpp:394-402 | one turn of the loop is exactly one exchange step |
| ResponseStats.AverageCell.Begin | include/performance_monitor.hpp:378-391 | the load and first computation are exactly one load step |
| ResponseStats.PerformanceMonitor.RecordResponseTime | include/performance_monitor.hpp:129-141 | the window always is the newest 10000 of all times recorded since the last reset |
| ResponseStats.PerformanceMonitor.GetPercentileResponseTime | include/performance_monitor.hpp:239-255 | the answer is a recorded time with at most index times below it and more than index times up to it, or 0 without a window or outside 0 to 1 |
| ResponseStats.OrderStatisticsAreMonotone | include/performance_monitor.hpp:249-254 | the value at an index of the sorted window is unique and grows with the index |
| ResponseStats.IndexExactly | include/performance_monitor.hpp:253 | the index is the only integer k with k <= percentile * (n - 1) < k + 1 |
| ResponseStats.PercentilesAreMonotone | include/performance_monitor.hpp:239-255 | a higher percentile of the same window is never smaller |
| ConfigIndex.LookupIsWalk | src/config_manager.cpp:403-474 | with non-empty dot-free keys, a dotted path is a key of the index if and only if walking the tree, cut off at depth 100, finds a leaf there, and then with that leaf's text |
| ConfigIndex.ShallowLookupIsWalk | src/config_manager.cpp:420-474 | for documents below the depth limit, looking up a dotted path equals walking the document |
| ConfigIndex.EveryKeyIsAPath | src/config_manager.cpp:450-474 | nothing else is stored: every key is the dotted path of a leaf, with its text |
| ConfigIndex.JoinedIsInjective | src/config_manager.cpp:451 | two different paths of non-empty dot-free keys never give the same dotted key |
| ConfigIndex.FlatIsPlain | src/config_manager.cpp:434-438 | flattening with the depth limit is flattening without one the tree whose objects at the limit are replaced by their text |
| ConfigIndex.PlainIsLeaves | src/config_manager.cpp:450-473 | flattening stores one entry for each leaf under its dotted path, in the order in which the library iterates the tree |
| ConfigIndex.IndexIsLastLeaf | src/config_manager.cpp:431-474 | for any document and any keys, the index holds for each dotted path the text of the last leaf, in the order of iteration, that has it, and nothing else |
| ConfigCollisions.LeafIsFoundExactly | src/config_manager.cpp:38-44 | a leaf is found with its own text if and only if the leaf that wins its dotted path has that text: the one whose key is longer where its path first differs from any other's |
| ConfigCollisions.LeavesAreSorted | src/config_manager.cpp:450 | the library iterates the leaves of a document in the order of their paths, compared key by key |
| ConfigCollisions.LaterBeats | src/config_manager.cpp:451 | of two leaves with one dotted path, the later one has the longer key where the paths first differ |
| ConfigCollisions.WinnerIsStored | src/config_manager.cpp:431-474 | the index holds for each dotted path the text of the leaf that wins it, whatever the order in the file |
| ConfigIndex.AllLeavesAreFoundExactly | src/config_manager.cpp:431-474 | all leaves of a document are found under their dotted paths if and only if no two with one dotted path have different texts |
| ConfigCollisions.DotsCollide | src/config_manager.cpp:450-453 | with a dotted or an empty key, two leaves share one entry and the later wins |
| ConfigManagement.GetStringIsWalk | src/config_manager.cpp:38-44 | asking for a dotted path answers what walking the document finds, else the default |
| ConfigManagement.GetIntIsWalk | src/config_manager.cpp:463-464 | an integer of a document is read back as itself if it fits an int, else as the default; one beyond long long wraps |
| ConfigManagement.GetBoolIsWalk | src/config_manager.cpp:467-468 | a boolean of a document is read back as itself |
| MonitoringDocument.SettingsOfDocument | src/config_manager.cpp:478-491 | after loading a document, each of the nine monitoring settings is what stands at its documented path, else its documented default |
| MonitoringDocument.IntAtExactly | src/config_manager.cpp:46-57 | an integer at a path is the setting if it fits an int; without a leaf there the default is |
| MonitoringDocument.BoolAtExactly | src/config_manager.cpp:59-66 | a boolean at a path is the setting; without a leaf there the default is |
| MonitoringDocument.GetTextAt | src/config_manager.cpp:38-44 | a text of the document is read as itself |
| MonitoringDocument.WrittenUnderPaths | src/config_manager.cpp:350-374 | an update writes each of the nine settings under its documented path, and nothing else |
| MonitoringDocument.DeepObjectIsDumped | src/config_manager.cpp:434-438 | an object a hundred keys deep is stored as its text under its path and "deep_nested" |
| ConfigManagement.ConfigManager.FlattenJson | src/config_manager.cpp:431-474 | on a tree the circular-reference branch is never taken and exactly the entries of the index are stored |
| ConfigManagement.ConfigManager.ParseConfigFile | src/config_manager.cpp:403-429 | an object document replaces the map by its index, an unreadable file changes nothing, any other document clears the map and succeeds only if iterating over it visits nothing |
| ConfigManagement.ConfigManager.UpdateConfigData | src/config_manager.cpp:308-330 | in whatever order the updates are visited, the map ends as the old one overridden by them |
| ConfigManagement.ConfigManager.UpdateMonitoringConfig | src/config_manager.cpp:186-206 | succeeds exactly for a valid configuration; then reading returns it and no other key changed; a refusal changes nothing |
| ConfigManagement.ConfigManager.GetMonitoringConfig | src/config_manager.cpp:147-150 | whenever the map holds the printed form of a configuration, that configuration is returned; with none of the keys, the defaults |
| ConfigValues.MonitoringRoundTrip | src/config_manager.cpp:332-374 | a monitoring configuration written over any map is read back as itself, valid or not |
| ConfigValues.IntRoundTrip | src/config_manager.cpp:46-57 | reading a printed int gives it back, for every int |
| ConfigValues.OutOfRangeIsRefused | src/config_manager.cpp:46-57 | a printed number outside the int range makes the reader fall back |
| ConfigValues.NumberIsRead | src/config_manager.cpp:46-57 | a number is read after white space and a sign, whatever follows its digits, and refused outside int |
| ConfigValues.NoNumberIsRefused | src/config_manager.cpp:46-57 | without a digit after white space and sign the text is refused |
| ConfigValues.BoolRoundTrip | src/config_manager.cpp:59-66 | a printed bool is read back, whatever the default |
| ConfigValues.TrueExactly | src/config_manager.cpp:59-66 | a setting is true if and only if it is true, 1, yes or on, in upper or lower case |
| ConfigValues.KeysAreDistinct | src/config_manager.cpp:353-373 | the web socket keys and the job tracking keys are disjoint, nine in all |
| JsonEscape.JobEscapeRoundTrip | include/job_monitoring_models.hpp:247-288 | a string scanner after section 7 of RFC 8259, given the escaped text, a quotation mark and any tail, returns the string and that tail |
| JsonEscape.HanaEscapeRoundTrip | include/hana_exception_handling.hpp:18-62 | the same for the second header's escaper |
| JsonEscape.DemoEscapeRoundTrip | scripts/demo_response_builder_simple.cpp:572-605 | the same for the response builder's escaper |
| JsonEscape.HeadersAgree | include/hana_exception_handling.hpp:18-62 | the two header escapers write identical text for every string |
| JsonEscape.EscapeIsInjective | include/job_monitoring_models.hpp:247-288 | different strings are never escaped to the same text |
| JsonEscape.CommentHoldsExactly | scripts/demo_response_builder_simple.cpp:560-605 | the response builder's escaper does what its comment says if and only if the string has no control character but newline, carriage return and tab |
| JsonEscape.UnchangedExactly | include/job_monitoring_models.hpp:247-288 | each of the three escapers leaves a string unchanged if and only if it has no quotation mark, backslash or control character |
| JsonEscape.DemoAgreesExactly | scripts/demo_response_builder_simple.cpp:572-605 | the response builder writes what the headers write if and only if the string has no backspace, form feed or control character whose code ends in a letter digit |
| JsonEscape.JobEscapeJsonString | include/job_monitoring_models.hpp:247-288 | the loop writes exactly the escaped form the round trip is about |
| JsonEscape.HanaEscapeJsonString | include/hana_exception_handling.hpp:18-62 | the loop writes exactly the escaped form the round trip is about |
| JsonEscape.DemoEscapeJson | scripts/demo_response_builder_simple.cpp:572-605 | the loop writes exactly the escaped form the round trip is about |
| PathNormalization.NormalizeComposes | scripts/demo_request_validator_simple.cpp:128-158 | normalize(p + "/" + q) = normalize(normalize(p) + "/" + q) for all p and q |
| PathNormalization.NormalizeIsIdempotent | scripts/demo_request_validator_simple.cpp:128-158 | normalising twice is normalising once |
| PathNormalization.NormalFormIsClean | scripts/demo_request_validator_simple.cpp:128-158 | every result starts with a slash, has no backslash and, apart from the bare root, no double or trailing slash and no empty, "." or ".." segment between its slashes |
| PathNormalization.RenderIsInjective | scripts/demo_request_validator_simple.cpp:151-157 | different lists of clean segments are written as different paths |
| PathNormalization.ClimbingStopsAtRoot | scripts/demo_request_validator_simple.cpp:143-146 | each further ".." removes one segment until none is left, and none climbs above the root |
| PathNormalization.ResolveExactly | scripts/demo_request_validator_simple.cpp:128-150 | what one more segment does to any path, after a slash or a backslash: nothing for "." and the empty one, one up for "..", one down for any other |
| PathNormalization.NormalizeAppends | scripts/demo_request_validator_simple.cpp:151-157 | a further clean segment is appended to the result after a slash; the empty path gives the root |
| PathNormalization.LeadingSlash | scripts/demo_request_validator_simple.cpp:137-142 | a leading slash makes no difference |
| PathNormalization.NormalizePath | scripts/demo_request_validator_simple.cpp:128-158 | the three loops compute what a character-by-character reader with a stack of segments computes |
| PercentDecoding.PassesShrink | scripts/demo_request_validator_simple.cpp:173-177 | whenever a pass changes the string, (length, number of plus signs) drops lexicographically |
| PercentDecoding.FixpointsAreDecoded | scripts/demo_request_validator_simple.cpp:80-112 | a pass changes nothing if and only if there is no plus sign and no valid escape |
| PercentDecoding.FullDecodingIsReached | scripts/demo_request_validator_simple.cpp:173-177 | without the limit the loop would end too, with nothing left to decode |
| PercentDecoding.DecodeTicks | scripts/demo_request_validator_simple.cpp:80-112 | a pass takes exactly one off the depth of every token read from the string |
| PercentDecoding.PassesSufficeExactly | scripts/demo_request_validator_simple.cpp:173-177 | n passes leave nothing to decode if and only if the encoding depth of the input is at most n |
| PercentDecoding.LimitIsHarmlessExactly | scripts/demo_request_validator_simple.cpp:167-180 | five passes give the full decoding if and only if the encoding depth of the input is at most five |
| PercentDecoding.DeepEncodingSurvives | scripts/demo_request_validator_simple.cpp:160-171 | any non-empty text without control characters, plus signs and escapes, encoded k times over, comes back if and only if k <= 5 |
| PercentDecoding.DecodeInvertsEncode | scripts/demo_request_validator_simple.cpp:80-112 | decoding the full percent-encoding of a byte string replaces its control characters, and returns the same string if and only if it has none |
| PercentDecoding.PlusesAreSpaces | scripts/demo_request_validator_simple.cpp:105-109 | spaces written as plus signs come back, in any text without plus and percent signs |
| PercentDecoding.PercentDecode | scripts/demo_request_validator_simple.cpp:80-112 | the index loop computes the recursive decoding |
| PercentDecoding.IterativePercentDecode | scripts/demo_request_validator_simple.cpp:167-180 | the loop with its early exit gives exactly five passes |
| Fnv1a.StepIsBijective | include/template_utils.hpp:86-89 | each step is undone by an explicit inverse step, in both orders |
| Fnv1a.HashIsBijective | include/template_utils.hpp:85-90 | hashing a fixed text is a bijection on the 64-bit state it starts from |
| Fnv1a.SuffixKeepsStatesApart | include/template_utils.hpp:86-89 | a common suffix never merges two different states |
| Fnv1a.OneByteChangeIsSeen | include/template_utils.hpp:81-91 | texts that differ in exactly one byte never have the same hash |
| Fnv1a.AsciiIsStandard | include/template_utils.hpp:79-91 | on ASCII text it is 64-bit FNV-1a of section 2 of draft-eastlake-fnv |
| Fnv1a.PublishedValues | include/template_utils.hpp:81-91 | the hashes of the empty string and of "a" are the published 64-bit FNV-1a values |
| Fnv1a.StandardExactly | include/template_utils.hpp:81-91 | on any text it is 64-bit FNV-1a if and only if the text is ASCII or, before its last byte from 0x80 on, the states of the two algorithms differ in exactly the upper 56 bits |
| Fnv1a.LastHighByteDecides | include/template_utils.hpp:86-89 | whatever precedes it, the last byte from 0x80 on merges the two states exactly in that case |
| Fnv1a.TwoHighBytesExactly | include/template_utils.hpp:86-89 | with two adjacent bytes from 0x80 on in otherwise ASCII text, it agrees if and only if the low byte of the hash before them is the first of them less 0x80 |
| Fnv1a.SomeNonAsciiIsStandard | include/template_utils.hpp:87 | the UTF-8 text of a comma and U+02C0 does hash to the published value |
| Fnv1a.OneHighByteIsNeverStandard | include/template_utils.hpp:87 | around one byte, in otherwise ASCII text, it agrees with the standard if and only if that byte is ASCII |
| Fnv1a.Fnv1aHash | include/template_utils.hpp:81-91 | the loop computes the hash the theorems are about |
| ResourceGuards.EveryRunKeepsInv | include/exception_handler.hpp:43-100 | any sequence of constructing, moving, assigning, releasing and destroying guards keeps single ownership and the cleanup counts |
| ResourceGuards.AtMostOneOwner | include/exception_handler.hpp:71-88 | a resource never has two live guards that would clean it up |
| ResourceGuards.NeverTwice | include/exception_handler.hpp:55-88 | a cleanup runs at most once, and not while a guard owns the resource |
| ResourceGuards.CleanedExactlyOnce | include/exception_handler.hpp:43-100 | when all guards are gone, a resource made with a cleanup was cleaned up once, or never if its owner was released |
| ResourceGuards.ResourceGuard.MoveFrom | include/exception_handler.hpp:71-75 | takes over the other guard's state and leaves it released |
| ResourceGuards.ResourceGuard.Assign | include/exception_handler.hpp:77-88 | runs its own pending cleanup first, then takes over; on itself it does nothing |
| ResourceGuards.ResourceGuard.Destroy | include/exception_handler.hpp:55-64 | runs the cleanup exactly if not released and not null |
| RetryQueue.EveryScanIsComplete | include/notification_service_recovery.hpp:259-269 | in every run with a clock that never goes back, a scan takes exactly the entries due at its last clock reading |
| RetryQueue.EveryRunIsSorted | include/notification_service_recovery.hpp:234-245 | since every entry is added with the same delay, the queue stays sorted by retry time |
| RetryQueue.HandedOutInOrder | include/notification_service_recovery.hpp:234-269 | what was handed out followed by what is queued is what was added, in order, whatever the clock does |
| RetryQueue.EntriesCarryWhatWasAdded | include/notification_service_recovery.hpp:234-245 | since the last clear, the entries handed out and those queued are, one for one, the additions made, each with the identifier, recipient, content, reason and method it was added with and no retries |
| RetryQueue.CompleteExactlyWhenSorted | include/notification_service_recovery.hpp:259-269 | a scan takes exactly the entries due, at every time, if and only if the queue is sorted by retry time |
| RetryQueue.SortedExactlyByStamps | include/notification_service_recovery.hpp:240-244 | whatever the clock does, the queue is sorted if and only if the readings that stamped the queued entries show times in order |
| RetryQueue.ClockSetBackHidesDueEntry | include/notification_service_recovery.hpp:263 | of two queued entries the second is due but hidden exactly when the clock now shows a time from the second due time up to before the first |
| RetryQueue.RetryQueueManager.AddFailedNotification | include/notification_service_recovery.hpp:234-245 | appends one entry, due a base delay after now, with no retries |
| RetryQueue.RetryQueueManager.GetReadyForRetry | include/notification_service_recovery.hpp:259-269 | takes the due heads off the queue; what it returns and what it leaves make up the old queue |
| RetryQueue.RetryQueueManager.ClearQueue | include/notification_service_recovery.hpp:252-257 | empties the queue |

## Left out

- Session pool: the checks of the constructor's arguments, minConnections (which cleanup ignores), the cleanup timer, error responses and sockets, getters.
- Session pool: a timeout on the pool mutex itself, which throws before anything changes; a request is named by its entry, so rejectedRequestCount is not read as a number of distinct requests.
- Session pool: whether null dependencies make session creation fail is fixed for a run, and an exception thrown by foreign code other than `session->run()` is not modelled.
- Lock ordering: the switch that disables the detector, unordered mutexes, LockMonitor statistics, and `checkForDeadlocks`, which only logs; the two lists of a thread are one multiset, since their order is never looked at.
- Circuit breaker: NotificationCircuitBreaker (`include/notification_service_recovery.hpp:119-224`) is the same machine with a timeout in minutes, and is not written twice.
- Service recovery: the degraded-mode event queue and the backoff delay, which grows by floating-point powers.
- Response statistics: rounding of doubles, memory orders, the plain counters; the single-step `reset` of average and window is two steps, one for each.
- Retry queue: delays for later retries, computed with `pow` and capped, since nothing adds an entry with retries.
- Configuration: `updateWebSocketConfig`, `updateJobTrackingConfig` and `validateConfiguration`, which lock again a mutex they hold; the raw JSON copy, change callbacks, string sets, doubles, logging settings, warnings of `validate`.
- ConfigManagement.ConfigManager.FlattenJson: does not derive the text of floats, null, arrays and objects at the depth limit, because the JSON library prints them; that text is given with the tree.
- Resource guards: cleanups that throw, which the destructor logs; two guards made for one resource number are not modelled.
- The database connection pool and the data transformer: their natural conservation and value claims do not hold. The cache manager, which forwards to Redis.
- Server configuration defaults, error tables and database schema text would only add easy members.
