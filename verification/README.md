# Verification of the service toolkit's stateful cores

This project models eleven parts of the Go repository that keep state or convert data, and proves
properties of them with Dafny 4.11. `dafny verify dfyconfig.toml` checks everything.

| module(s) | what it models |
|---|---|
| `Bits`, `Lex`, `Wrappers` | 64-bit shifts and masks; the byte order of strings; optional values |
| `Ids`, `IdRuns` | the generator of 63-bit IDs that tolerates clock rollbacks, one call and whole runs |
| `Snowflake` | the generators that wait out a rollback, with configurable field widths |
| `LeaseLock`, `LeaseProtocol` | the Redis lease lock: its objects, and the timed protocol with delayed requests |
| `Hub`, `HubState`, `HubProtocol`, `HubSchedules`, `HubSafety`, `HubVictims`, `HubBlocking` | the connection hub: its objects, its handlers as values, their interleaving, exactly when a channel is safe, and exactly when a handler can finish |
| `Ranking`, `RankingService`, `FuzzyRank` | the sorted set, the truncation and score scripts, the approximate rank |
| `MapXValues`, `MapX` | path access to nested maps and slices, as values and on the heap |
| `FastQueue`, `Sign`, `LogWriter`, `CustomRadix` | the linked queue, the canonical text of a map, the batching log writer, numerals in a custom alphabet |

Code that changes state is modelled by classes and methods with loops. Each such method is proved
equal to a specification function of the old state (`NextID`, `NextStep`, `SetNX`, `Removed`,
`Sweep`, `TruncateScript`, `IncrementDb`, `Set`, `Received`, `Final`, ...), and the theorems are
about those functions, over every input, run or reachable state.

## What the proofs found

- `NewID` repeats an ID when two separate rollbacks return to one instant. A call opens an instant
  when it leaves the last stamp for an earlier one, or for any other while a rollback is pending,
  as after the numbers of a millisecond have run out (`IdRuns.OpensExactly`). IDs are distinct
  exactly when no instant is opened twice at one depth (`IdRuns.IdsDistinctExactly`,
  `IdRuns.TwoRollbacksToOneInstantRepeatAnId`).
- The rollback wait of `Next` is documented to last until the next timestamp but compares with `<`,
  so it may end on the last timestamp and reset the sequence. IDs increase exactly when no wait
  ends there (`Snowflake.IncreasingExactlyWhenNoWaitEndsEarly`).
- `TryLock` and `Lock` never look at their `resource` argument and no option function sets the key,
  so callers that name different resources contend for one key (`LeaseLock.DifferentResourcesContend`).
- The unregister handler deletes a user's entry by key after looking at a list it loaded earlier.
  A sweep and a registration in between make it drop the entry of a live line. Lines stay
  reachable, and the connection count stays the sum of the line counts, exactly when no such
  delete happens (`HubProtocol.LinesReachableExactly`, `HubProtocol.CountersAgreeExactly`).
- A send on a closed channel can follow exactly when an entry, dropped by the handler or by the
  sweep, has a sender on its way through the list that nothing shelters
  (`HubVictims.ChannelsAreSafeExactly`, `HubSchedules.ForeignDeleteCanPanic`).
- The strategy that is documented to try only once tries again every 10 ms until the timeout: 6000
  times under the default one (`LeaseLock.NoRetryRetries`). It makes one attempt only when that
  attempt is granted or fails, or the time is up within 10 ms, or the locker is closed in between
  (`LeaseLock.OneAttemptExactly`).
- After a failed `Unlock` the handle counts as released, so every later call does nothing and reports
  success. These reports are true exactly when the first call arrived or there was no lease to
  delete (`LeaseLock.UnlocksAreTrueExactly`, `LeaseLock.UnlockTwice`); a lost first call makes them
  false (`LeaseLock.LostUnlockThenSuccess`).
- The hub stores the nanoseconds of its idle time as a number of seconds. Configured with n seconds
  it closes a line after n thousand million of them, and does what it is configured for exactly
  when n is not positive or the line has been idle for no longer than n seconds or for longer than
  that (`Hub.IdleLimitIsTooLong`).
- A send whose line no longer takes anything blocks for ever and keeps its read lock. The
  unregister handler, and with it every later unregistration, can still finish exactly when no such
  sender reads the list it waits to write (`HubBlocking.HandlerFinishesExactly`).
- Of two members with one score, the one with more seconds left on the clock ranks above exactly when
  its digits, read behind a point, are the greater number: always among numbers of one length, but
  ten seconds rank below nine (`RankingService.MoreTimeRanksAboveExactly`,
  `RankingService.FewerDigitsRankAbove`).
- Two ranges with the same start make the approximate rank depend on the map's iteration order, in
  exactly the cases `FuzzyRank.ScanIsOrderIndependentExactly` names.
- The log writer's timer fires once: afterwards one batch is handed over for every maxCount records
  taken, and records wait exactly until a batch is full (`LogWriter.BatchesAreFullExactly`,
  `LogWriter.WaitingRecordsStayExactly`). A run has at most one batch that is not full.
- The refresh script gets the time to live cut down to whole milliseconds, while the first `SET`
  never takes less than one. A lease below one millisecond is ended by its first extension, which
  still reports success (`LeaseProtocol.ExtensionEndsShortLease`).
- `IDSetNodeID` accepts 127 node numbers where its comment speaks of 128.
- `Encode` does not return for the least `int`, nor on an alphabet of fewer than two characters, and a numeral that is too long wraps around.

## Assumptions

- A clock is the list of readings that successive looks return, in any order. Sleeping is taking
  the next reading, and a call that still waits when the readings end is `Starved`.
- One Redis server. Its time is in nanoseconds and a key is gone from its expiry on.
- In the hub, each line is registered once, and unregistered at most once and only afterwards; an
  unregistration of a line that is not listed would miscount (`HubState.UnregisterCountsExactly`),
  and the protocol ignores it. Registering a line, the
  delete-if-empty check with its delete, and one deletion of the sweep are single steps. All else
  interleaves freely: a sender's lock, nil check, channel read and send, and the handler's removal,
  counting, two closes, two field clears and final delete.
- Owners of lease handles are distinct for one resource, as generated UUIDs are. What a reused owner
  breaks is proved as well. In the protocol a request whose answer is lost is one that is delivered
  and whose handle its client does not use.
- Scores are real numbers. `sort.Strings` is represented by an insertion sort, which is proved to give
  the only sorted listing. `slices.SortFunc` is any descending rearrangement.
- A character of a Dafny string stands for a byte where the source works on bytes.

## Model

| member | source | states |
|---|---|---|
| Ids.FirstOther | pkg/ids/int64.go:120-137 | the wait for a number ends on the first reading that is not the exhausted millisecond |
| Ids.Generator.constructor | pkg/ids/int64.go:54-63 | the package variables start out zero |
| Ids.Generator.SetNodeID | pkg/ids/int64.go:44-52 | accepts exactly the nodes 0 to 126, and changes only the node |
| Ids.Generator.AwaitOtherInstant | pkg/ids/int64.go:120-137 | the sleeping loop finds the first other reading |
| Ids.Generator.Observe | pkg/ids/int64.go:98-113 | a reading past the first rollback point forgets the rollback; one that is not past it freezes time |
| Ids.Generator.AwaitNext | pkg/ids/int64.go:118-138 | the wait ends on a later instant unchanged, or on an earlier one with one more rollback noted, or in a fourth rollback |
| Ids.Generator.NoteRollback | pkg/ids/int64.go:142-151 | a rollback is counted, a fourth one refused, and its point stored at its depth |
| Ids.Generator.NewID | pkg/ids/int64.go:94-161 | one call, statement by statement, makes exactly the step of `NextID`, for any clock |
| Ids.CounterStep | pkg/ids/int64.go:117-118 | masking the sequence wraps it after 8191 and changes nothing else |
| Ids.CallKeepsValid | pkg/ids/int64.go:94-161 | every reachable state has at most 3 rollbacks, a 13-bit sequence and a node below 127; only a fourth rollback crashes |
| IdRuns.CallEndsExactly | pkg/ids/int64.go:98-151 | a call starves exactly without a reading to go by, and crashes exactly on a rollback with three pending |
| IdRuns.CallExactly | pkg/ids/int64.go:98-160 | every variable, the ID and the readings taken after a call, told from the state and the readings before it |
| IdRuns.SequencesCount | pkg/ids/int64.go:115-154 | over any run a call that stays on its instant counts up by one, and a call that leaves it starts at 0 |
| IdRuns.LowBitsCount | pkg/ids/int64.go:157-160 | the low 13 bits of an ID are that number |
| IdRuns.OnlyARecoveryFallsBack | pkg/ids/int64.go:99-113 | (rollback count, timestamp, sequence) increases from one call to the next if and only if the clock has not recovered |
| IdRuns.IncreasesBetweenRecoveries | pkg/ids/int64.go:94-161 | between two recoveries the triple increases strictly, for every clock |
| IdRuns.UnrolledIncrease | pkg/ids/int64.go:94-161 | stamps with rollback field 0 increase over the whole run, through rollbacks and recoveries |
| IdRuns.OpensExactly | pkg/ids/int64.go:115-155 | before the call one can tell whether it opens an instant: it stamps an earlier one, or any other while a rollback is pending |
| IdRuns.DistinctExactlyWhenNoInstantReopens | pkg/ids/int64.go:94-161 | stamps of a run are distinct if and only if no instant is opened twice at one rollback depth |
| IdRuns.RisingEpisodesAreDistinct | pkg/ids/int64.go:99-113 | stamps are distinct when each rollback episode stays above the instants of the earlier ones |
| IdRuns.PackIsSum | pkg/ids/int64.go:158-160 | the four fields do not overlap: shifting and or-ing them is a sum |
| IdRuns.GettersRecoverFields | pkg/ids/int64.go:164-180 | the three getters take back what was packed, on either side of the epoch |
| IdRuns.IdOrderIsFieldOrder | pkg/ids/int64.go:158-160 | numeric order is the order of (timestamp, node, rollback, sequence), and equal IDs have equal fields |
| IdRuns.IdFits63Bits | pkg/ids/int64.go:16-27 | an ID stamped in the 2^41 ms after the epoch is a non-negative 63-bit number |
| IdRuns.RunStaysInRange | pkg/ids/int64.go:94-161 | a clock within bounds makes every stamp of a run packable, within the same bounds and on the generator's node |
| IdRuns.IdsDistinctExactly | pkg/ids/int64.go:94-161 | the IDs of a fresh generator are distinct if and only if no instant is opened twice at one rollback depth |
| IdRuns.UnrolledIdsIncrease | pkg/ids/int64.go:94-161 | IDs whose rollback field reads 0 increase over the whole run |
| IdRuns.IdsFit63Bits | pkg/ids/int64.go:94-161 | a run whose clock stays in the 2^41 ms after the epoch returns 63-bit numbers only |
| IdRuns.NodesNeverCollide | pkg/ids/int64.go:14-27 | generators on different nodes never return the same ID |
| IdRuns.TwoRollbacksToOneInstantRepeatAnId | pkg/ids/int64.go:141-157 | the excluded case: two rollbacks to one instant return one ID twice |
| Snowflake.FirstAtLeast | pkg/distribute/snowflake.go:62-72 | a wait ends on the first reading that is late enough |
| Snowflake.Generator.Create | pkg/distribute/snowflake.go:30-46 | the constructor panics exactly on a negative width or a worker that does not fit its field |
| Snowflake.Generator.NewSecond | pkg/distribute/snowflake.go:28-46 | the second generator counts from its own epoch |
| Snowflake.Generator.NewMillisDefault | pkg/distribute/snowflake.go:134-136 | the default millisecond generator takes workers 0 to 511 |
| Snowflake.Generator.AwaitInstant | pkg/distribute/snowflake.go:62-72 | the sleeping loop finds the first reading that is late enough |
| Snowflake.Generator.Next | pkg/distribute/snowflake.go:52-81 | one call makes the step of `NextStep` for all widths, never moves the time back, and keeps the fields in range where they fit 63 bits |
| Snowflake.CounterStep | pkg/distribute/snowflake.go:142-156 | masking the sequence wraps it at its width and changes nothing else |
| Snowflake.NextKeepsValid | pkg/distribute/snowflake.go:142-171 | the stored time never moves back, and never before the epoch, for any clock |
| Snowflake.CallExactly | pkg/distribute/snowflake.go:52-81 | a call takes the first reading that is not before the last time, or is after it when no number is left; it counts up on the same time without a wait, and else starts at 0 |
| Snowflake.LayoutInRange | pkg/distribute/snowflake.go:80-80 | while the time fits, an ID is time, worker and sequence side by side |
| Snowflake.TimestampsNeverDecrease | pkg/distribute/snowflake.go:142-171 | the timestamps of a whole run never decrease |
| Snowflake.WorkerIsRecovered | pkg/distribute/snowflake.go:173-176 | `GetWorkerId` inverts the packing for every width and every timestamp, even an overflowed one |
| Snowflake.TimestampIsRecoveredExactlyInRange | pkg/distribute/snowflake.go:178-182 | `GetTimestamp` inverts the packing if and only if the time fits the bits left over |
| Snowflake.IdOrderIsTimeOrder | pkg/distribute/snowflake.go:170-170 | while the time fits, IDs are non-negative and order like (time, sequence) |
| Snowflake.IncreasingExactlyWhenNoWaitEndsEarly | pkg/distribute/snowflake.go:68-73 | the IDs of a run increase strictly if and only if no rollback wait ends on the last timestamp |
| Snowflake.RunStaysInRange | pkg/distribute/snowflake.go:142-171 | a clock below the horizon stamps times below it only |
| Snowflake.MonotoneClockNeverWaitsEarly | pkg/distribute/snowflake.go:157-163 | a clock that never goes back never causes such a wait |
| Snowflake.EarlyEndRepeatsAnId | pkg/distribute/snowflake.go:157-170 | the excluded case: forward, back and exactly there again repeats an ID |
| LeaseLock.Redis.Set | pkg/distribute/locker.go:147-150 | SET NX PX stores owner and expiry only where nobody holds the key; a call lost on its way back has done so too |
| LeaseLock.Redis.RunRefresh | pkg/distribute/locker.go:25-25 | the refresh script touches nothing but a live entry of its own owner, if the call arrives |
| LeaseLock.Redis.RunRelease | pkg/distribute/locker.go:26-26 | the release script deletes nothing but a live entry of its own owner, if the call arrives |
| LeaseLock.Lock.Extend | pkg/distribute/locker.go:294-307 | renews exactly a live entry of an unreleased handle, for its time to live in whole milliseconds, and tells a released handle, a failed call and a lost lease apart |
| LeaseLock.Lock.Unlock | pkg/distribute/locker.go:310-350 | deletes only its own entry, tells a failed call from a lost lease, and does nothing a second time, even after a failure |
| LeaseLock.SuccessIsTrueExactly | pkg/distribute/locker.go:318-349 | a reported success means that the lease is gone if and only if the call is no repeat on a lease that stands |
| LeaseLock.UnlockTwice | pkg/distribute/locker.go:318-322 | the second call reports success, and the lease still stands if and only if it stood before and the first call did not arrive |
| LeaseLock.UnlocksAreTrueExactly | pkg/distribute/locker.go:318-349 | over any number of calls all but the first report success, and the lease is gone if and only if the first arrived or there was none |
| LeaseLock.LostUnlockThenSuccess | pkg/distribute/locker.go:318-344 | the failing case: a lost call, then a success on a lease that still stands |
| LeaseLock.Locker.constructor | pkg/distribute/locker.go:72-81 | unset defaults become 8 s, 60 s and a linear strategy of 100 ms |
| LeaseLock.Locker.Connect | pkg/distribute/locker.go:59-82 | a locker is made if and only if the server answers the ping |
| LeaseLock.LinearTicks | pkg/distribute/retry-strategy.go:11-23 | a linear strategy makes its attempts evenly, at its own pause but no closer than 10 ms |
| LeaseLock.Locker.TryLock | pkg/distribute/locker.go:138-164 | grants exactly when the call is answered and the key of the options is free, whatever resource was named, for the time to live asked for; fails on a closed locker and on a failed call |
| LeaseLock.Locker.Acquire | pkg/distribute/locker.go:176-220 | ends as `Ends` says: in a handle from the first attempt that met a free key, at the deadline or the end of the context, or at once on a failed call or a closed locker |
| LeaseLock.SetLastsTtl | pkg/distribute/locker.go:147-147 | a granted SET holds the key for the time to live cut down to whole milliseconds, or for one where that is none, and for not a moment longer |
| LeaseLock.RefreshLastsTtl | pkg/distribute/locker.go:299-300 | a successful extension lasts as long again; below one millisecond it ends the lease at once |
| LeaseLock.Lasts | pkg/distribute/locker.go:194-194 | the bounds of a granted lease in nanoseconds |
| LeaseLock.Locker.Deadline | pkg/distribute/locker.go:178-178 | the lock timeout or the end of the caller's context, whichever comes first |
| LeaseLock.NextAttemptWaits | pkg/distribute/locker.go:211-218 | from one attempt to the next it waits as long as the strategy answers, but at least 10 ms |
| LeaseLock.AttemptsAreSpaced | pkg/distribute/locker.go:181-211 | attempts are at least 10 ms apart, even for a strategy that asks for no retry |
| LeaseLock.AttemptIsMadeExactly | pkg/distribute/locker.go:182-219 | attempt k is made if and only if its time comes before the deadline, the locker is open, and all earlier attempts were answered and met a held key |
| LeaseLock.ShortBackoffsTick | pkg/distribute/locker.go:181-211 | a strategy that never asks for more than 10 ms is answered every 10 ms |
| LeaseLock.OneAttemptExactly | pkg/distribute/retry-strategy.go:16-19 | a strategy without a pause makes one attempt if and only if it is granted or fails, or the time is up within 10 ms, or the locker is closed in between |
| LeaseLock.NoRetryRetries | pkg/distribute/retry-strategy.go:16-19 | the strategy that is meant to try once makes 6000 attempts on a key that stays taken, under the default timeout |
| LeaseLock.MergedOptionsAreUsable | pkg/distribute/locker.go:222-241 | merged options have a positive time to live and timeout, and a trimmed owner that is not blank |
| LeaseLock.SetOptionsAreKept | pkg/distribute/locker.go:222-241 | a positive time to live or timeout, the resource, and an owner that is not blank, without the space around it, are kept |
| LeaseLock.TrimmedOwner | pkg/distribute/locker.go:236-236 | space of several kinds around an owner goes, space inside stays |
| LeaseLock.BlankOwnerIsReplacedExactly | pkg/distribute/locker.go:236-239 | the owner is replaced if and only if it is all white space |
| LeaseLock.NamedResourceIsHeldExactly | pkg/distribute/locker.go:138-147 | a granted call holds the resource it named if and only if the options name it too or it was held before |
| LeaseLock.DifferentResourcesContend | pkg/distribute/locker.go:171-174 | without a resource in the options, a grant for one resource refuses every other one |
| LeaseProtocol.AcquireExactly | pkg/distribute/locker.go:194-207 | an acquisition in the protocol is one SET NX for the time to live: a handle for the one who gets the key, nothing for the others |
| LeaseProtocol.SendingExactly | pkg/distribute/locker.go:295-322 | a released handle sends nothing, and sending an unlock releases the handle |
| LeaseProtocol.UnlockArrives | pkg/distribute/locker.go:26-26 | an unlock that arrives frees the key if its own lease still stands, and changes nothing otherwise |
| LeaseProtocol.ExtensionArrives | pkg/distribute/locker.go:25-25 | an extension that arrives renews its own lease for the time to live if it still stands, and changes nothing otherwise |
| LeaseProtocol.StepKeepsInv | pkg/distribute/locker.go:147-161 | every step of the timed protocol keeps entries and handles in agreement |
| LeaseProtocol.DeliveryKeepsInv | pkg/distribute/locker.go:294-350 | so does the arrival of any request, however late and in whatever order |
| LeaseProtocol.MutualExclusion | pkg/distribute/locker.go:194-207 | in every reachable state an unreleased handle whose lease has not run out is the stored owner, and no two on one resource are live together |
| LeaseProtocol.LateRequestIsHarmless | pkg/distribute/locker.go:294-350 | a late or stale extend or unlock never alters another owner's entry, never revives an expired lease and leaves all other handles alone |
| LeaseProtocol.ReusedOwnerBreaksExclusion | pkg/distribute/locker.go:236-239 | the excluded case: an owner used twice puts two live handles on one resource |
| LeaseProtocol.AcquisitionStartsFullLease | pkg/distribute/locker.go:194-207 | a granted acquisition starts with the lease that automatic extension begins with, for every time to live |
| LeaseProtocol.ExtensionEndsShortLease | pkg/distribute/locker.go:299-304 | an extension of a lease below one millisecond ends it: the handle is not leased, the resource not held, and the script reports success |
| LeaseProtocol.RoundRenews | pkg/distribute/locker.go:265-287 | one round of the goroutine keeps the lease in force at every moment and ends with a full one |
| LeaseProtocol.RoundsRenew | pkg/distribute/locker.go:265-287 | so do any number of rounds |
| LeaseProtocol.AutoExtendKeepsLeaseExactly | pkg/distribute/locker.go:159-159 | for every time to live, automatic extension keeps every lease with delays up to d unbroken if and only if (TTL/3)*2 plus 2d is below the TTL in whole milliseconds |
| LeaseProtocol.SlowRound | pkg/distribute/locker.go:271-278 | where that fails, one round with delays of d breaks the lease |
| HubState.WithoutDropsExactlyTheId | pkg/hub/user_lines.go:36-41 | removal drops every line with the id and no other |
| HubState.WithoutKeepsNoRepeats | pkg/hub/user_lines.go:36-41 | removal never lists a line twice |
| HubState.UnregisterCountsExactly | pkg/hub/hub.go:124-140 | with distinct ids, an unregistration keeps the counter equal to the length of the list if and only if a line with the id is listed; another one may lose the user a live line |
| Hub.UserLines.Add | pkg/hub/user_lines.go:24-30 | appends one line and counts it |
| Hub.UserLines.Remove | pkg/hub/user_lines.go:33-44 | drops exactly the lines with the id, in order, and counts one down |
| Hub.UserLines.Get | pkg/hub/user_lines.go:47-57 | the first line with the id, or none |
| Hub.UserLines.PushMessage | pkg/hub/user_lines.go:185-277 | all five pushes, by platform or by id, for or except: each open line that is meant gets the message once, the others nothing, and nobody on an empty list of arguments |
| Hub.UserLines.CloseLines | pkg/hub/user_lines.go:78-182 | all six closes: each open line that is meant gets one close command, the others none |
| Hub.Hub.constructor | pkg/hub/hub.go:57-63 | an empty hub is valid: lists hold registered lines once, and channels in their fields are open and shared by nobody; the idle limit is the number of nanoseconds |
| Hub.IdleLimitIsTooLong | pkg/hub/hub.go:63-63 | with n seconds configured, a sweep closes a line if and only if n is positive and it has been idle for more than n thousand million seconds; when that is what was configured |
| Hub.Hub.ListedLinesAreReady | pkg/hub/user_lines.go:193-198 | in a valid hub every user's list is ready for pushes and closes |
| Hub.Hub.LoadOrStore | pkg/hub/hub.go:112-112 | gives the user's list, and makes an empty one only for a user without one |
| Hub.Hub.RegisterLine | pkg/hub/hub.go:107-114 | the register handler makes both channels, does `Register` to the registry and keeps the hub valid |
| Hub.Hub.CloseLineChans | pkg/hub/hub.go:163-173 | closes both channels, clears both fields, and leaves all other lines' channels open |
| Hub.Hub.DropLine | pkg/hub/hub.go:130-132 | takes the line off the loaded list, and one off the connection count |
| Hub.Hub.DeleteIfEmpty | pkg/hub/hub.go:137-139 | drops the user exactly when the counter is zero |
| Hub.Hub.UnregisterLine | pkg/hub/hub.go:123-140 | the unregister handler does `Unregister` to the registry, closes the line's channels and keeps the hub valid; it skips an unknown user |
| Hub.Hub.SweepEmptyUsers | pkg/hub/hub.go:87-100 | the sweep drops exactly the users whose counter is zero |
| Hub.Hub.CloseUserLines | pkg/hub/user_lines.go:153-169 | the selected lines of one user get one close command, all other registered lines none |
| Hub.Hub.CloseIdleLines | pkg/hub/hub.go:87-94 | every idle line on any list gets one close command, and no other line |
| Hub.Hub.SweepUsers | pkg/hub/hub.go:85-101 | one sweep sends one close command to exactly the listed open lines that the stored limit selects, and drops exactly the users whose counter is zero |
| HubProtocol.RegisterKeepsRegistry | pkg/hub/hub.go:107-114 | registering keeps lists, counters and entries in agreement |
| HubProtocol.SenderStepKeepsSenders | pkg/hub/user_lines.go:185-199 | a sender's step touches no one but the sender: no panic, no nil channel |
| HubProtocol.AdvanceKeepsInv | pkg/hub/hub.go:123-140 | every step of the unregister handler keeps the invariant, if it deletes only its own entry |
| HubProtocol.SweepKeepsInv | pkg/hub/hub.go:85-101 | so does every deletion of the sweep, without a condition |
| HubProtocol.SenderStepsExactly | pkg/hub/user_lines.go:190-199 | a sender goes through its list from front to back, sends at most once to a line, and gives up the lock only behind the last one |
| HubProtocol.SenderLooksExactly | pkg/hub/user_lines.go:194-197 | at a line it looks twice: whether there is a channel, and to take it |
| HubProtocol.OtherStepsExactly | pkg/hub/hub.go:85-129 | the handler takes on one line at a time, the sweep drops an entry whose counter is zero, a sender starts with the user's list |
| HubProtocol.StepKeepsInv | pkg/hub/hub.go:85-140 | so does every step of any goroutine |
| HubProtocol.NoSendOnClosedChannel | pkg/hub/hub.go:134-135 | no send on a closed or nil channel and no second close, in any interleaving whose deletes meet their own entries |
| HubProtocol.CountersAgree | pkg/hub/hub.go:107-140 | the connection count is the sum of the line counts; a line count is registrations minus unregistrations; an entry exists exactly while it is positive |
| HubProtocol.ForeignDeleteBreaksCount | pkg/hub/hub.go:137-139 | a delete that meets another list than it loaded makes the connection count exceed the sum |
| HubProtocol.CountersAgreeExactly | pkg/hub/hub.go:107-140 | the counters agree in every state of a run, and even the connection count alone does, if and only if each delete meets its own entry |
| HubProtocol.ListFitsCounter | pkg/hub/user_lines.go:24-44 | a list is no longer than its counter, and as long with every active line on it when the ids are distinct |
| HubProtocol.ForeignDeleteLosesLines | pkg/hub/hub.go:137-139 | a delete that meets another list than it loaded leaves an active line without an entry |
| HubProtocol.LinesReachableExactly | pkg/hub/hub.go:123-140 | every active line stays reachable through a run if and only if each delete meets its own entry |
| HubSchedules.RegisterStepIsHandler | pkg/hub/hub.go:107-114 | the protocol's register step does what the whole handler does |
| HubSchedules.UnregisterStepsAreHandler | pkg/hub/hub.go:123-140 | the protocol's unregister steps, uninterrupted, do what the whole handler does |
| HubSchedules.ForeignDeleteCanPanic | pkg/hub/hub.go:85-140 | a run from the empty hub in which a push panics |
| HubSafety.StepKeepsSafety | pkg/hub/hub.go:85-140 | every step keeps visited lines open unless it drops an entry in front of a sender that nothing shelters |
| HubSafety.SafeDropsKeepSendsSafe | pkg/hub/user_lines.go:185-199 | no send on a closed or nil channel and no second close, in every run without such a drop, foreign deletes included |
| HubSafety.OwnDeletesDropSafely | pkg/hub/hub.go:137-139 | deletes that meet their own entry, and all sweeps, satisfy that condition |
| HubSafety.OwnDeletesAlwaysDropSafely | pkg/hub/hub.go:123-140 | so the condition is weaker than the one on own entries, over whole runs |
| HubVictims.DropMakesVictim | pkg/hub/hub.go:85-140 | an unsafe drop leaves a sender on its way through a list that no entry leads to, and that the handler can get past |
| HubVictims.OthersLeave | pkg/hub/user_lines.go:190-199 | all other senders can leave, and take nothing from that sender |
| HubVictims.HandlerFinishes | pkg/hub/hub.go:123-140 | the unregister handler can then finish what it was at, and take nothing from it either |
| HubVictims.VictimPanics | pkg/hub/hub.go:134-135 | from there a run exists, without another unsafe drop, in which the sender sends on a closed channel |
| HubVictims.DropIsSafeExactly | pkg/hub/hub.go:85-140 | any one step, of the handler or of the sweep, drops safely if and only if nothing can panic or hang after it without another unsafe drop |
| HubVictims.ChannelsAreSafeExactly | pkg/hub/hub.go:85-140 | a run from the empty hub drops safely throughout if and only if after each of its steps nothing can panic or hang without another unsafe drop |
| HubBlocking.BlockedRun | pkg/hub/user_lines.go:176-181 | while a sender that nobody takes from reads the list, the handler stays where it is, whatever else happens |
| HubBlocking.FreeSendersLeave | pkg/hub/user_lines.go:190-199 | every other sender can leave |
| HubBlocking.HandlerFinishesExactly | pkg/hub/hub.go:123-140 | the handler can finish with the blocked senders where they are if and only if none of them reads the list it waits to write |
| HubBlocking.BlockedListTakesNoLine | pkg/hub/hub.go:112-113 | the register handler is held up by them too |
| Ranking.AboveExactly | pkg/services/ranking.go:161-161 | a higher score ranks above, and of equal scores the later member in the order of strings |
| Ranking.IndexIsRank | pkg/services/ranking.go:160-166 | an index in the descending listing is the number of items ranked above |
| Ranking.ScriptRemovesSlice | pkg/services/ranking.go:41-47 | one run of the truncation script removes one stretch of ranks from `size` on, and reports its length |
| Ranking.ScriptCountsExactly | pkg/services/ranking.go:41-47 | how many members one run removes, for every size and every count, 0 and negative ones included |
| Ranking.OneShotKeepsTop | pkg/services/ranking.go:111-120 | unlimited truncation keeps exactly the items with fewer than `size` items above them |
| Ranking.DigitsSuffice | pkg/services/ranking.go:174-175 | a number is below the power of ten its digits name |
| Ranking.DigitsExactly | pkg/services/ranking.go:175-175 | a number has d digits exactly from 10^(d-1) up to 10^d |
| Ranking.FractionExactly | pkg/services/ranking.go:175-175 | the digits of the seconds stand behind the point |
| Ranking.FractionStaysBelowOne | pkg/services/ranking.go:174-175 | the fraction made from the seconds left lies in [0, 1) |
| Ranking.ZAddSetsOneScore | pkg/services/ranking.go:30-30 | ZADD sets one member's score, changes no other and keeps the order |
| RankingService.Service.RunTruncate | pkg/services/ranking.go:80-89 | one evaluation of the truncation script |
| RankingService.Service.Truncate | pkg/services/ranking.go:79-106 | the batches terminate and, in final set and returned count, equal one-shot truncation, for every positive batch size; a batch size of 0 removes nothing, a negative one truncates at once |
| RankingService.Service.TruncateAll | pkg/services/ranking.go:111-120 | keeps the best `size` members and returns how many went |
| RankingService.Service.Rank | pkg/services/ranking.go:160-166 | the number of items ranked above the member, or -1 if it is not in the set |
| RankingService.Service.Increment | pkg/services/ranking.go:172-190 | one call, with its refusal of a repeated request and its parse error, does `IncrementDb` to the database |
| RankingService.Service.UpdateScore | pkg/services/ranking.go:200-219 | one call does `UpdateDb` to the database |
| RankingService.BatchCuts | pkg/services/ranking.go:94-104 | each batch widens one and the same cut, and an empty batch means the end is reached |
| RankingService.RefusedExactly | pkg/services/ranking.go:172-219 | a call is refused without a time that parses and a positive expiry, skipped while its request key lives, and done otherwise |
| RankingService.StoredTimeExactly | pkg/services/ranking.go:20-30 | the whole part of a stored score is the raised or set score, and what stands behind the point are the digits of the seconds left |
| RankingService.MoreTimeRanksAboveExactly | pkg/services/ranking.go:175-175 | of two members with one score the one with the greater fraction ranks above; with equally many digits that is the one with more seconds left |
| RankingService.FewerDigitsRankAbove | pkg/services/ranking.go:175-175 | the failing case: ten seconds left rank below nine |
| RankingService.AppliedExactlyOnceExactly | pkg/services/ranking.go:18-19 | each request id is applied at its first use and never again if and only if repeats arrive while its key lives |
| RankingService.ScoresFollowAccounts | pkg/services/ranking.go:20-30 | under that condition the floor of every score equals an integer account of the first uses, for increments and outright settings mixed |
| RankingService.IncrementsAccumulateOnce | pkg/services/ranking.go:20-30 | for increments the floor of a score is the sum of the deltas of the distinct request ids |
| FuzzyRank.PlaceIsZeroOrOne | pkg/services/ranking.go:309-309 | the estimated place is 1 on the first score of a range and 0 elsewhere |
| FuzzyRank.ScanRanges | pkg/services/ranking.go:303-315 | the loop over the sorted ranges is the scan |
| FuzzyRank.SortRanges | pkg/services/ranking.go:300-302 | the ranges in descending order of their starts |
| FuzzyRank.Rank | pkg/services/ranking.go:286-316 | the exact rank below the limit, -1 when the ranges cannot be read or there are none, else the scan of a sorted arrangement, and of every one if no tie shows |
| FuzzyRank.SameScan | pkg/services/ranking.go:300-315 | tie-free ranges give one result in every descending arrangement |
| FuzzyRank.TieShows | pkg/services/ranking.go:300-302 | a visible tie gives two arrangements that disagree |
| FuzzyRank.ScanIsOrderIndependentExactly | pkg/services/ranking.go:256-302 | the approximate rank is independent of the map's order if and only if no visible tie exists |
| FuzzyRank.ScanIsWithinOwnRange | pkg/services/ranking.go:303-314 | with disjoint ranges it lies between the members in higher ranges and those plus its own range's count |
| FuzzyRank.ScanExactly | pkg/services/ranking.go:304-314 | with disjoint ranges a score from the start of a range up to before its end counts everybody in the higher ranges, and one more on the start |
| FuzzyRank.ScanOutside | pkg/services/ranking.go:311-315 | a score in no range counts everybody |
| FuzzyRank.ScanIsAntitone | pkg/services/ranking.go:303-314 | with disjoint ranges a higher score never gets a worse approximate rank |
| FuzzyRank.DisjointRangesAreTieFree | pkg/services/ranking.go:232-232 | disjoint ranges have no visible tie |
| MapXValues.SplitKeepsPath | pkg/core/mapx.go:37-37 | splitting a path loses nothing and leaves no dot |
| MapXValues.AtoiReadsDecimal | pkg/core/mapx.go:41-41 | a key is a number when it is decimal digits with an optional sign, within 64 bits, leading zeros allowed |
| MapXValues.AtoiRejects | pkg/core/mapx.go:41-41 | nothing else is a number |
| MapXValues.GetOneExactly | pkg/core/mapx.go:41-68 | a name reads an entry of a map, a number an element of a slice, and nothing else reads anything |
| MapXValues.GetGoesOn | pkg/core/mapx.go:40-70 | a longer path reads on where the shorter one ends |
| MapXValues.SetOneExactly | pkg/core/mapx.go:119-132 | a write with one key: a map takes any key, a slice its indices, anything else nothing |
| MapXValues.SetGoesThrough | pkg/core/mapx.go:88-116 | a longer write goes through what is there and changes only that; a scalar or nil entry blocks it without an error |
| MapXValues.SetMakesContainer | pkg/core/mapx.go:82-113 | a missing entry or a nil element becomes a slice before a number and a map before a name |
| MapXValues.NamesAreWritten | pkg/core/mapx.go:73-134 | a path of names, with maps or nothing on the way, is written without an error and reads back |
| MapXValues.NumberMakesEmptySlice | pkg/core/mapx.go:90-105 | a number after a missing entry leaves an empty slice there and fails with an index out of range |
| MapXValues.NilElementIsFilled | pkg/core/mapx.go:107-113 | the same below a nil element of a slice; a path of names there is written and reads back |
| MapXValues.GetAfterSet | pkg/core/mapx.go:73-134 | reading back returns the written value if every key fits its container down to the leaf, and nothing otherwise |
| MapXValues.ApartMeansDiffer | pkg/core/mapx.go:41-46 | two paths are apart exactly when they differ at a common position, indices compared as numbers |
| MapXValues.SetLeavesOtherPaths | pkg/core/mapx.go:73-134 | whether a write succeeds, fails or is blocked, paths that are neither prefix nor extension read as before |
| MapXValues.LastWriteWins | pkg/core/mapx.go:73-134 | a second write to a path gives the tree and the error it would have given alone |
| MapXValues.ErrorsExactly | pkg/core/mapx.go:97-129 | a write fails if and only if it meets a slice with a key that is no number, or is no index, and with that error |
| MapXValues.FailedWriteStoresNothing | pkg/core/mapx.go:97-129 | a write that fails leaves a tree that does not depend on the value |
| MapX.GetValue | pkg/core/mapx.go:33-71 | finds nothing in a nil map; else the loop over heap containers finds exactly what `Get` finds in their value |
| MapX.PutEntry | pkg/core/mapx.go:130-132 | storing under a key changes one entry of one map |
| MapX.PutElem | pkg/core/mapx.go:121-129 | storing at an index changes one element of one slice |
| MapX.MakeEntry | pkg/core/mapx.go:88-95 | a missing entry becomes a slice or a map, as the next key asks for |
| MapX.MakeElem | pkg/core/mapx.go:107-113 | a nil element becomes a slice or a map, as the next key asks for |
| MapX.SetInMap | pkg/core/mapx.go:88-96 | the step through a map, in place, is `Set` on its value |
| MapX.SetInSlice | pkg/core/mapx.go:97-116 | the step through a slice, in place and with its errors, is `Set` on its value |
| MapX.SetBelow | pkg/core/mapx.go:79-134 | writing from a container on, in place, is `Set` on its value |
| MapX.SetValue | pkg/core/mapx.go:73-134 | fails on a nil map, and otherwise turns the tree into what `Set` says |
| FastQueue.Queue.Append | pkg/collection/collection_queue.go:30-40 | links one node behind the tail, also when the tail pointer is stale |
| FastQueue.Queue.In | pkg/collection/collection_queue.go:22-43 | appends the values in order |
| FastQueue.Queue.Out | pkg/collection/collection_queue.go:46-59 | takes the oldest value, or none from an empty queue |
| FastQueue.Queue.Clear | pkg/collection/collection_queue.go:62-68 | empties the queue |
| FastQueue.Queue.Size | pkg/collection/collection_queue.go:71-75 | the counter is the length of the contents |
| FastQueue.Queue.IsEmpty | pkg/collection/collection_queue.go:78-82 | the queue is empty exactly when its contents are |
| FastQueue.Execute | pkg/collection/collection_queue.go:22-68 | any series of operations on the linked nodes gives the contents and outputs of the same series on a sequence |
| FastQueue.FirstInFirstOut | pkg/collection/collection_queue.go:22-68 | what has left, in order, followed by what is inside, is what came in, and the outputs are the values taken |
| Lex.LessExactly | internal/app/shared/crypto/sign.go:37-37 | a name comes first if it is a proper prefix, or has the smaller character where the two first differ |
| Sign.SortStringsSorts | internal/app/shared/crypto/sign.go:33-37 | sorting lists the same names in order |
| Sign.SortedListingIsUnique | internal/app/shared/crypto/sign.go:37-37 | a set of names has one sorted listing |
| Sign.StringfyMap | internal/app/shared/crypto/sign.go:27-47 | the method writes the canonical text, none for the empty map |
| Sign.WriteAll | internal/app/shared/crypto/sign.go:42-44 | the loop writes one item per name, in order |
| Sign.CanonicalText | internal/app/shared/crypto/sign.go:42-45 | the text itself: names in order, an equals sign before each value, ampersands between the items |
| Sign.BytesIgnoreOrder | internal/app/shared/crypto/sign.go:33-46 | the same map gives the same bytes in whatever order it is ranged over |
| Sign.ParseUndoesBytesExactly | internal/app/shared/crypto/sign.go:27-47 | the bytes can be read back to the map if and only if no name holds '=' or '&' and no value '&' |
| Sign.BytesAreInjective | internal/app/shared/crypto/sign.go:27-47 | two such maps with the same bytes are equal |
| Sign.AmpersandCollides | internal/app/shared/crypto/sign.go:42-44 | the excluded case: an ampersand in a value passes for another parameter |
| LogWriter.Writer.constructor | internal/pkg/features/logging/writer.go:49-58 | options that cannot be used fall back to 1 record and a channel of 1000 |
| LogWriter.Writer.Post | internal/pkg/features/logging/writer.go:71-76 | a record goes to the end of the channel, or waits while it is full |
| LogWriter.Writer.Flush | internal/pkg/features/logging/writer.go:113-128 | stamps each buffered record with its id, service and time, hands them over as one batch and empties the buffer; an empty buffer is no batch |
| LogWriter.Writer.Receive | internal/pkg/features/logging/writer.go:138-142 | buffers one record, and flushes when the batch is full |
| LogWriter.Writer.OnTimer | internal/pkg/features/logging/writer.go:143-144 | flushes, and the timer never fires again |
| LogWriter.EventExactly | internal/pkg/features/logging/writer.go:71-144 | what each event does and when it can happen: the timer hands the whole buffer over, once |
| LogWriter.EventConserves | internal/pkg/features/logging/writer.go:130-147 | every event keeps the order of the records and the bounds on batches and buffer |
| LogWriter.LogsAreConserved | internal/pkg/features/logging/writer.go:113-147 | the posted records equal, in order, the batches, then the buffer, then the channel; batches hold 1 to maxCount records |
| LogWriter.AtMostOnePartialBatch | internal/pkg/features/logging/writer.go:101-101 | since the timer fires once, a run has at most one batch that is not full |
| LogWriter.BatchesAreFullExactly | internal/pkg/features/logging/writer.go:138-145 | once the timer has fired, one batch is handed over for every maxCount records taken, after the batches before it |
| LogWriter.WaitingRecordsStayExactly | internal/pkg/features/logging/writer.go:138-145 | then nothing is handed over if and only if the buffer and the records taken are fewer than maxCount together |
| LogWriter.WaitingRecordsStay | internal/pkg/features/logging/writer.go:138-145 | whoever has posted fewer than fill a batch waits, whatever the loop takes |
| Wrappers.IndexOf | pkg/codes/custom_radix.go:68-68 | the first position of a character |
| CustomRadix.Encode | pkg/codes/custom_radix.go:28-46 | the division loop writes the numeral, most significant digit first; it does not return for the least int, nor for too short an alphabet |
| CustomRadix.Decode | pkg/codes/custom_radix.go:49-80 | the loop accumulates with wrap-around, and names the error of a text with a fault |
| CustomRadix.DecodeFailsExactly | pkg/codes/custom_radix.go:50-71 | decoding fails if and only if the text is empty, a lone minus sign, or holds an unknown character |
| CustomRadix.FaultsExactly | pkg/codes/custom_radix.go:50-71 | which error it is: an empty text, a lone minus sign, or the first unknown character |
| CustomRadix.BinaryText | pkg/codes/custom_radix.go:28-46 | the most significant digit comes first, behind the sign |
| CustomRadix.AccumulateIsWrappedValue | pkg/codes/custom_radix.go:67-73 | accumulating with wrap-around gives the wrapped value of the numeral |
| CustomRadix.DecodeUndoesEncode | pkg/codes/custom_radix.go:28-80 | decoding undoes encoding on every int but the least one, which is never encoded |
| CustomRadix.UsableAlphabets | pkg/codes/custom_radix.go:18-20 | every int but the least makes the round trip if and only if the alphabet has at least two characters, they are distinct and none is '-' |
| CustomRadix.EncodedIsCanonical | pkg/codes/custom_radix.go:28-46 | encoding writes canonical numerals |
| CustomRadix.EncodeUndoesDecodeExactly | pkg/codes/custom_radix.go:49-80 | encoding undoes decoding on the canonical numerals in range and on no other text |
| CustomRadix.PrefixesStayInRange | pkg/codes/custom_radix.go:67-73 | no prefix of a numeral is worth more than the whole, so a numeral in range never overflows on the way |

## Left out

- HTTP handlers, middleware, scrapers, configuration, database and cache wrappers: plumbing around libraries.
- RedLock, the etcd lock, the message queues, workflows and the SSE hub: library guarantees, or a copy of the hub's logic.
- Cryptographic primitives, tokens and sessions: calls into other code.
- `Hub.Close`, the writer's `release`, the websocket read and write goroutines: shutdown and I/O.
- Hub.UserLines.PushMessage: runs alone, as `Hub.UserLines.CloseLines` does, so that a send never blocks, although a close channel has no buffer and a write channel has 2048 places; blocking is the subject of `HubBlocking`.
- HubVictims.OthersLeave: lets the sends of the other senders go through; a run in which some are never taken is not asked for.
- HubProtocol: does not model the sweep's list of users found empty, which the source fills before it deletes; a deletion and the look before it are one step.
- Hub.Hub.SweepUsers: takes the closes and the deletions of the source's one pass one after the other; in the protocol the closes are senders of kind close.
- LeaseLock.Lock.Unlock: does not model the wait of up to one second for the extending goroutine; the protocol lets a late extension arrive at any time instead.
- LeaseLock.Locker.Acquire: where back-off and the end of the context fall together, the end is taken; a cancellation while a call is under way is a failed call.
- Redis replication, failover and clock changes of the server: one server with a forward clock.
- RankingService.Service.Truncate: no writes by others between batches; Lua's limit on `unpack` is not modelled.
- RankingService.ScoresFollowAccounts: scores are reals, so the rounding of floating point is not modelled.
- FuzzyRank.Rank: takes the exact rank and the ranges as inputs; the parsing of the range fields, the overflow of the comparison's difference and the rounding of the quotient are not modelled.
- The ranking's pagination: a range query.
- MapX.SetBelow: recurses where the source has a loop, since the proof that containers form a tree goes up again from each write.
- MapX.SetValue: containers that are shared between two places, and a value that is part of the tree it is written to, are not covered.
- The typed getters, `Delete`, `Clear` and the JSON conversion of MapX: one-line wrappers.
- Sign.StringfyMap: does not model the reuse of the pooled buffer whose bytes it returns.
- LogWriter.Writer.Flush: does not model the reuse of the batch's backing array after the store returns; a store that fails is only reported, so it changes nothing.
- CustomRadix.Decode: alphabets of ASCII characters only.
- Snowflake.WorkerIsRecovered: like the other lemmas on the packing, takes widths that sum to at most 63; wider ones leave `GetTimestamp` a negative shift.
- Ids.Generator.NewID: the mutex is represented by whole calls, and the sleep by taking the next reading.
