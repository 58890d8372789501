# Device daemons, modelled and proved

A Dafny 4.11 model of the stateful cores of an Android device tree, with proofs of the
properties they exist for. One module per component:

| module | component |
|---|---|
| `BoostTime`, `InteractionHandler`, `InteractionProtocol` | the interaction boost: time arithmetic, the handler's locked regions as methods, and callers, worker thread and environment interleaved |
| `SessionIndex`, `TrueMin`, `HintTimers`, `BoostRace`, `Pid`, `HintSession`, `KernelClamp`, `SessionTimer`, `TimerUpdates` | ADPF power hint sessions: thread index and task profiles, boosts layered over a true minimum, the timers that bound them, a hint racing with the boost timer, the PID controller, the session and manager objects, what the kernel holds over runs, the re-arming timers and whose deadlines they keep |
| `Buckets`, `ConfTable`, `ConfGrammar`, `ConfFileParser` | the FM radio's configuration parser: chained hashing as values, the table on the heap, the grammar and the loader's automaton, the loader itself |
| `SetMap`, `OsObserver`, `OsEffects`, `ActionRequests` | the location observer: the set map it is built on, its two relations and what the framework was asked for, what each message does for whom, reference-counted action requests |
| `ChangeHistory`, `NetworkInfo`, `NetworkStatus`, `NetworkReset` | the bounded event history, the network handle table inside its items, their APN and type mask, and resetting the table from the history |
| `AdapterArray`, `ElapsedRealtime` | the location API's adapter array and its clock estimator |
| `Geofence`, `GeofenceIntent` | the geofence adapter's two maps under commands, modem responses in any order and restarts, and that restarts keep what clients asked for |
| `Thermal` | throttling severity with hysteresis and the kernel trip window |
| `CppInt`, `ToggleLog` | C++ integer arithmetic that differs from Dafny's; logs of calls that switch things on and off |

Code that updates fields or arrays in place is a class here, and each of its methods is proved to
take the object's `View()` (or `Contents()`, `Adapters()`, ...) to the value a specification function
gives. Properties of single operations, of whole runs and of interleavings are then lemmas about
those functions. Threads are modelled as steps: a region under a lock is one step, and so is each
read of a clock, an atomic or a file descriptor outside it. Replies of the modem, the kernel, the
framework and the clock are parameters or actions chosen by the environment; outgoing calls are
kept in a log.

Where the code does not do what its comments or its design promise, the code is modelled as it is
and the exact condition is proved:

- `Acquire` with a negative duration beyond the offset gets the longest boost
  (`BoostTime.FinalDurationIsClampUnlessNegative`, witness `NegativeRequestBoostsLongest`).
- `Exit` during a boost leaves the hint held (`InteractionProtocol.HintLeaksOnExit`, witness
  `ExitWhileBoostedLeaks`).
- `LocUnorderedSetMap::update` returns the intersection of old and new values, so
  `updateSubscription` by a client that already holds items breaks the relations
  (`OsObserver.AlwaysConverseIff`, witnesses `RepeatedUpdateLosesNotifications` and, without any
  item in common, `MovedSubscriptionStaysRegistered`).
- A subscription object installed again may have stale requests standing
  (`OsObserver.AlwaysMirroredIff`, witness `ReinstalledObjectIsStale`).
- `setThreads` keeps old threads that survive its resize (`SessionIndex.SetThreadsListsGivenIff`, witness
  `OldThreadStaysIndexed`), and during a boost does not reset the true minimum
  (`TrueMin.SetThreadsResetsIffNotBoosted`, witness `BoostKeepsThreadsFromReset`).
- The kernel keeps the minimum of threads that `setThreads` cuts off, and of a boost that an unsupported
  hint ends (`KernelClamp.AlwaysRightIff`, witnesses `CutOffThreadKeepsMinimum`, `UnsupportedHintLags`).
- A boost that expires inside a hint can make the boosted minimum the true one, or undo the hint
  (`BoostRace.TrueMinSurvivesIff`, `ResetSurvivesIff`, `DownTakesEffectIff`, witnesses
  `ExpiryInsideHintLoses`, `ExpiryAroundResetLoses`, `ExpiryAroundDownLoses`).
- The first network item is stored unmerged, as a disconnect too, and with its initial type, which
  for items of the data item's public constructor is not the raw type later events are compared by:
  its handle may never leave the table (`NetworkInfo.AlwaysRightIff`, `TableIsLiveSetAndPhantom`,
  witness `RawTypeIsNeverRemoved`).
- Resetting the network state disconnects the five stored items, not the up to ten listed handles
  (`NetworkReset.ResetEmptiesIff`, witness `ResetLeavesEarliest`).
- A disconnect while another network of its type is connected drops the bits of all other types from the
  mask (`NetworkStatus.AlwaysMaskRightIff`, witness `DisconnectDropsMobileBit`).
- A paused geofence that is added again after an engine restart is saved as running, so the next restart
  does not pause it (`GeofenceIntent.PausesSurviveIff`, witness `SecondRestartResumes`).
- A stopped geofence client can come back with an engine restart (`Geofence.ComesBackIff`,
  `StoppedClientReturnsIff`, witness `StoppedClientReturns`).
- The trip window is wrong at the highest defined level (`Thermal.WindowRightIffLevelAbove`, witness
  `TopLevelWindowIsWrong`).

`dafny verify dfyconfig.toml` checks everything.

## Model

| member | source | states |
|---|---|---|
| `BoostTime.CalcTimespecDiffMs` | power-libperfmgr/InteractionHandler.cpp:62-67 | The value left in the wrapping `size_t` accumulator; for two readings of a monotonic clock it is less than 1 ms from the true elapsed time. |
| `BoostTime.ElapsedWithinOneMs` | power-libperfmgr/InteractionHandler.cpp:62-67 | The error is one-sided: it rounds down when the nanosecond part grows and up when it shrinks, since C++ division truncates toward zero. |
| `BoostTime.FinalDurationIsClampUnlessNegative` | power-libperfmgr/InteractionHandler.cpp:150-157 | The final duration is always in [min, max], but it is the request plus offset clamped into that range if and only if the sum is not negative (or min = max); a negative sum turns into the longest boost. |
| `BoostTime.NegativeRequestBoostsLongest` | power-libperfmgr/InteractionHandler.cpp:150-157 | With the default tunables a request of -1000 ms is boosted for 5650 ms where the clamp gives 1400. |
| `InteractionHandler.InteractionHandler.Init` | power-libperfmgr/InteractionHandler.cpp:91-113 | Succeeds when already initialised or when both descriptors open; only then idle with an empty counter, else nothing changes. |
| `InteractionHandler.InteractionHandler.ExitLocked` | power-libperfmgr/InteractionHandler.cpp:115-122 | The locked region of `Exit` is the `Exited` step: one abort, then uninitialised; no effect when uninitialised. |
| `InteractionHandler.InteractionHandler.Acquire` | power-libperfmgr/InteractionHandler.cpp:145-191 | Equals the `Acquired` step of the protocol: fallback hint, suppression, abort of a wait, or hint lock, with the integer conversions spelled out. |
| `InteractionHandler.AcquireByCases` | power-libperfmgr/InteractionHandler.cpp:145-191 | The four ways a request can end, on a length stated through the clamp (or the maximum for a negative sum): the fallback hint of exactly that length, suppression by a boost that ends no earlier, taking the hint, or waking a waiting worker. |
| `InteractionHandler.InteractionHandler.Release` | power-libperfmgr/InteractionHandler.cpp:193-206 | Ends the hint only from WAITING; otherwise reads the eventfd, which empties it. |
| `InteractionHandler.InteractionHandler.BeginWait` | power-libperfmgr/InteractionHandler.cpp:265-271 | The locked region at the loop top: return when uninitialised, else WAITING. |
| `InteractionProtocol.NextKeepsHandshake` | power-libperfmgr/InteractionHandler.cpp:115-276 | Every step of callers, worker and environment keeps the invariant tying state, eventfd counter and worker position together. |
| `InteractionProtocol.HandshakeHolds` | power-libperfmgr/InteractionHandler.cpp:115-276 | The invariant holds in every interleaving from start-up on. |
| `InteractionProtocol.NoStaleAbort` | power-libperfmgr/InteractionHandler.cpp:193-276 | In every interleaving no wait starts with an abort left over, the clearing read never finds an empty counter, a boosted handler's worker is not asleep, and an accepted request cannot be slept through in `poll`. |
| `InteractionProtocol.HintHeldExactlyWhileBoosted` | power-libperfmgr/InteractionHandler.cpp:131-206 | Before any `Exit`, lock and release of the hint strictly alternate and it is held if and only if the state is INTERACTION or WAITING. |
| `InteractionProtocol.HintLeaksOnExit` | power-libperfmgr/InteractionHandler.cpp:115-129 | An `Exit` leaves the hint held for good, whatever follows short of a new `Init`, if and only if the handler was not idle. |
| `InteractionProtocol.ExitWhileBoostedLeaks` | power-libperfmgr/InteractionHandler.cpp:115-129 | Init, one `Acquire` and `Exit` end with the hint held and the handler uninitialised. |
| `InteractionProtocol.NoAcceptedRequestLost` | power-libperfmgr/InteractionHandler.cpp:145-206 | Whenever a step ends the hint, the wait it ends began at an earlier step and no `Acquire` was accepted since. |
| `InteractionProtocol.QuietBoostEnds` | power-libperfmgr/InteractionHandler.cpp:216-276 | Without new requests and `Exit`, the worker steps taken plus the rank left never exceed 12 while the boost lasts: after 12 it is over and the hint is released. |
| `InteractionProtocol.BoostNeverBlocks` | power-libperfmgr/InteractionHandler.cpp:216-276 | While boosted the worker always has a step that brings the end of the boost nearer, with polls that only abort or time out. |
| `InteractionProtocol.NeverBlocksAfterExit` | power-libperfmgr/InteractionHandler.cpp:115-129 | Once `Exit` has left the lock: a sleeping worker is woken by the notification, any other has a step that brings it nearer its end, and its polls cannot time out. |
| `InteractionProtocol.WorkerEndsAfterExit` | power-libperfmgr/InteractionHandler.cpp:261-275 | After `Exit` the worker takes at most as many steps of its own as its rank (at most 6), whatever is interleaved, and at that count it has ended. |
| `InteractionProtocol.AcceptMovesDeadline` | power-libperfmgr/InteractionHandler.cpp:167-180 | While boosted, an accepted request moves the remembered deadline strictly later; a suppressed one ends less than 1 ms after the deadline that stays. |
| `InteractionProtocol.DeadlineIsRunningMax` | power-libperfmgr/InteractionHandler.cpp:145-191 | In every run the remembered deadline is one of those requested since the boost began and within 1 ms of the latest of them. |
| `SessionIndex.AddThreadsUnder` | power-libperfmgr/PowerSessionManager.cpp:127-136 | Adding puts a session under exactly its threads, repeated ids included. |
| `SessionIndex.RemoveThreadsUnder` | power-libperfmgr/PowerSessionManager.cpp:143-152 | Removing takes it out from under exactly its threads. |
| `SessionIndex.AddThreadsKeepsProfiles` | power-libperfmgr/PowerSessionManager.cpp:127-136 | Adding keeps profile calls real changes and a thread reset exactly while its session set is non-empty. |
| `SessionIndex.RemoveThreadsKeepsProfiles` | power-libperfmgr/PowerSessionManager.cpp:143-152 | So does removing. |
| `SessionIndex.IndexIsCoherent` | power-libperfmgr/PowerHintSession.cpp:209-258 | Over any run of create, pause, resume, setThreads and close: an indexed session is registered and lists the thread, an open active one is indexed under all its threads, a closed one under none, and a thread is ResetUclampGrp if and only if its set is non-empty. |
| `SessionIndex.SetThreadsListsGivenIff` | power-libperfmgr/PowerHintSession.cpp:376-393 | `setThreads` leaves exactly the given threads listed if and only if the old ones surviving the resize, and the zero padding, are among them. |
| `SessionIndex.OldThreadStaysIndexed` | power-libperfmgr/PowerHintSession.cpp:376-393 | A session of thread 1 given thread 2 lists both and stays indexed under 1. |
| `HintSession.PowerSessionManager.AddPowerSession` | power-libperfmgr/PowerSessionManager.cpp:110-136 | Registers the session and indexes its threads, with the profile calls this makes. |
| `HintSession.PowerSessionManager.RemovePowerSession` | power-libperfmgr/PowerSessionManager.cpp:116-152 | Unregisters the session and takes it out of the index. |
| `HintSession.PowerSessionManager.TidMax` | power-libperfmgr/PowerSessionManager.cpp:159-170 | The loop finds the peak over the active sessions that are not stale, 0 if there is none above it. |
| `HintSession.PowerSessionManager.SetUclampMin` | power-libperfmgr/PowerSessionManager.cpp:154-170 | Afterwards the kernel holds, for each of the session's threads, the clamped maximum over all sessions of that thread; other threads keep their value. |
| `HintSession.PowerSessionManager.IsAnyAppSessionActive` | power-libperfmgr/PowerSessionManager.cpp:172-189 | The flag becomes "some registered app session is active and not stale"; a change is reported if and only if it changed. |
| `HintSession.PowerHintSession.constructor` | power-libperfmgr/PowerHintSession.cpp:118-137 | A new session is open, active, registered and indexed, and starts under a reset hint that the kernel has been told of; its two timers have been started in order. |
| `HintSession.PowerHintSession.SetSessionUclampMin` | power-libperfmgr/PowerHintSession.cpp:182-196 | Stores the minimum, restarts the stale timer only for a non-zero one when asked to, and the kernel shows it. |
| `HintSession.PowerHintSession.DisableTemporaryBoost` | power-libperfmgr/PowerHintSession.cpp:434-452 | Puts the saved minimum back, and says whether there was one. |
| `HintSession.PowerHintSession.SetStale` | power-libperfmgr/PowerHintSession.cpp:454-463 | Ends the boost and asks the kernel for nothing on the session's behalf. |
| `HintSession.PowerHintSession.OnBoostTimeout` | power-libperfmgr/PowerHintSession.cpp:518-522 | Ends the boost; the kernel is told only if there was one, and the stale timer is not restarted. |
| `HintSession.PowerHintSession.Pause` | power-libperfmgr/PowerHintSession.cpp:209-225 | Rejected without effect unless open and active; else inactive, unboosted, out of the index, and the kernel no longer counts it. |
| `HintSession.PowerHintSession.Resume` | power-libperfmgr/PowerHintSession.cpp:227-243 | Rejected without effect unless open and inactive; else active, indexed, and the kernel shows its old minimum. |
| `HintSession.PowerHintSession.Close` | power-libperfmgr/PowerHintSession.cpp:245-258 | Rejected without effect when closed; else closed, unregistered, unindexed, timers dead, minimum 0, and the kernel no longer counts it. |
| `HintSession.PowerHintSession.SendHint` | power-libperfmgr/PowerHintSession.cpp:337-374 | Equals the `Hinted` step; its error cases; the timer calls are exactly those of `HintTimers.Timed`; the kernel shows the new minimum and is told of no other thread. An unsupported hint still ends the boost and starts no timer. |
| `HintSession.PowerHintSession.SetThreads` | power-libperfmgr/PowerHintSession.cpp:376-393 | Rejected without effect when closed or given nothing; else resized-then-appended list, re-indexed, initial minimum shown. |
| `HintSession.PowerHintSession.UpdateTargetWorkDuration` | power-libperfmgr/PowerHintSession.cpp:260-279 | Rejected without effect when closed or not positive; else the target is the product with the profile factor, cut toward zero. |
| `HintSession.PowerHintSession.ReportActualWorkDuration` | power-libperfmgr/PowerHintSession.cpp:281-335 | Its four rejections in order, without effect; else boost ended and the minimum moved by the controller output and clamped (or set high with the controller off). |
| `HintSession.WantedIsClampedMaximum` | power-libperfmgr/PowerSessionManager.cpp:154-170 | What the kernel is told lies in 0..1024 and is the largest of what the caller and the active sessions that are not stale ask for, as far as that range allows; other sessions do not enter. |
| `HintTimers.BoostHintsStartBoostTimer` | power-libperfmgr/PowerHintSession.cpp:345-359 | LOAD_UP starts the boost timer exactly once, for twice the target, before any stale timer; LOAD_RESET once, for half the stale delay; nothing else starts it. |
| `HintTimers.MinRestartsStaleTimer` | power-libperfmgr/PowerHintSession.cpp:182-196 | The stale timer is restarted once, last, for the target times the stale factor, exactly by known hints, resuming, new threads and reports that leave a minimum other than 0. |
| `HintTimers.FrameDelays` | power-libperfmgr/PowerHintSession.cpp:345-359 | At a target of 16666666 ns and a stale factor of 20: LOAD_UP starts the boost timer for 33333332 ns and then the stale timer for 333333320, LOAD_RESET for 166666660. |
| `HintTimers.BoostIsTimed` | power-libperfmgr/PowerHintSession.cpp:337-374 | Over any run of calls, with profiles and targets changing: while a minimum is saved, the very hint that saved it has started the boost timer, for the time that hint asks for, and every timer call since is the stale timer's. |
| `TrueMin.TemporaryKeepsTrueMin` | power-libperfmgr/PowerHintSession.cpp:337-374 | No sequence of LOAD_UP, LOAD_RESUME and unsupported hints, boost expiry, staleness, pause and resume changes the true minimum. |
| `TrueMin.TemporaryEndsWhereItBegan` | power-libperfmgr/PowerHintSession.cpp:434-463 | However a session was boosted and unboosted by temporary operations, expiry, staleness or pausing at the end leaves the minimum from before all of them, with no boost. |
| `TrueMin.MinStaysInRange` | power-libperfmgr/PowerHintSession.cpp:281-393 | With Low <= Init <= High, from construction on and under every operation and any controller output both the true and the current minimum stay in [Low, High]. |
| `TrueMin.ResetRaisesToInit` | power-libperfmgr/PowerHintSession.cpp:353-359 | A reset hint raises the true minimum to the initial one and never lowers it, despite the unsigned comparison. |
| `TrueMin.HintsMoveMin` | power-libperfmgr/PowerHintSession.cpp:337-371 | Up and reset ask for the high minimum on top of the true one, down for the low one for good, the others end the boost; reset raises the true one to the initial one. |
| `TrueMin.ReportMovesMin` | power-libperfmgr/PowerHintSession.cpp:317-332 | A report ends the boost and moves the true minimum by exactly the controller output, stopping at the end of the range it would pass; without a controller it is the high one. |
| `TrueMin.SetThreadsResetsIffNotBoosted` | power-libperfmgr/PowerHintSession.cpp:376-393 | `setThreads` makes the initial minimum the true one if and only if no boost is on (or it was initial already). |
| `TrueMin.BoostKeepsThreadsFromReset` | power-libperfmgr/PowerHintSession.cpp:376-393 | Construction, a report, LOAD_UP and `setThreads` end with a true minimum above the initial one. |
| `BoostRace.RunKeepsInv` | power-libperfmgr/PowerHintSession.cpp:337-374 | Every schedule of a hint's reads and writes against any number of boost timeouts keeps the invariant on minimum, saved value and both threads' locals. |
| `BoostRace.OutcomeIsExact` | power-libperfmgr/PowerHintSession.cpp:337-374 | For each of the four hints and any schedule, the true minimum both threads leave is a function of where the steps of the timer's latest effective run fell. |
| `BoostRace.TrueMinSurvivesIff` | power-libperfmgr/PowerHintSession.cpp:345-349 | A LOAD_UP keeps the true minimum if and only if the timer did not overrun the save (clear after it without putting anything back after the raise), or the boost is to that minimum. |
| `BoostRace.ResetSurvivesIff` | power-libperfmgr/PowerHintSession.cpp:353-359 | A LOAD_RESET leaves the larger of initial and true minimum if and only if the timer's clear came before the save, or it put back what the hint saved, or none of this makes a difference. |
| `BoostRace.DownTakesEffectIff` | power-libperfmgr/PowerHintSession.cpp:350-352 | A LOAD_DOWN takes effect if and only if the timer did not put the old minimum back, or that is the low one. |
| `BoostRace.ResumeAlwaysSurvives` | power-libperfmgr/PowerHintSession.cpp:360-362 | A LOAD_RESUME never loses it, whatever the schedule. |
| `BoostRace.AloneIsHinted` | power-libperfmgr/PowerHintSession.cpp:337-374 | Without the timer the steps amount to the hint as one call, for each of the four. |
| `BoostRace.TimerAloneIsRestored` | power-libperfmgr/PowerHintSession.cpp:518-522 | Without the hint the timer's steps amount to ending the boost. |
| `BoostRace.StaleRunIsCovered` | power-libperfmgr/PowerHintSession.cpp:454-463 | The stale timer's shorter run is one of the boost timer's that reads and writes back at once. |
| `BoostRace.ExpiryInsideHintLoses` | power-libperfmgr/PowerHintSession.cpp:518-522 | A schedule in which the old boost expires between the save and the raise: the boosted minimum becomes the true one. |
| `BoostRace.ExpiryAroundDownLoses` | power-libperfmgr/PowerHintSession.cpp:518-522 | A schedule in which a LOAD_DOWN is undone by what the timer read before it. |
| `BoostRace.ExpiryAroundResetLoses` | power-libperfmgr/PowerHintSession.cpp:518-522 | A schedule in which a LOAD_RESET is undone by a boost loaded before it and restored after. |
| `KernelClamp.StepStaysRightIff` | power-libperfmgr/PowerSessionManager.cpp:154-170 | A call or timeout leaves the kernel with the clamped maximum of every thread if and only if it neither tells it a minimum that does not count (paused or stale session) nor leaves it with one that no longer does (threads cut off, unsupported hint during a boost, time passing). |
| `KernelClamp.AlwaysRightIff` | power-libperfmgr/PowerSessionManager.cpp:154-170 | Over any run the kernel holds, after every action and for every thread, the clamped maximum over the sessions that count for it, if and only if no action goes wrong. |
| `KernelClamp.AtThread` | power-libperfmgr/PowerSessionManager.cpp:159-170 | What one telling call does at one thread, whatever other sessions share it. |
| `KernelClamp.CutOffThreadKeepsMinimum` | power-libperfmgr/PowerHintSession.cpp:376-393 | A new session of threads 1 and 2 given thread 3 leaves thread 2 boosted in the kernel with no session asking for it. |
| `KernelClamp.UnsupportedHintLags` | power-libperfmgr/PowerHintSession.cpp:337-371 | An unsupported hint right after creation ends the boost without the kernel being told. |
| `TrueMin.PeakIsUnique` | power-libperfmgr/PowerSessionManager.cpp:159-170 | The peak is determined by being an upper bound that is 0 or attained: what the manager's loop is proved against. |
| `Pid.AppHintDesc.ConvertWorkDurationToBoostByPid` | power-libperfmgr/PowerHintSession.cpp:57-116 | The loop with its three windows leaves the integral and previous error of the fold `Batch`, and returns the sum of three terms that the following lemmas state in gains, sums and windows. |
| `Pid.OutputIsThreeTerms` | power-libperfmgr/PowerHintSession.cpp:98-105 | The output is p + i + d, each within 1 of its exact value on the side of zero: the error sum times one gain when positive and another when not, over its window count; the integral times its gain; the derivative sum likewise per time step and over its own window count. |
| `Pid.TermsHaveTheirSign` | power-libperfmgr/PowerHintSession.cpp:98-105 | With gains that are not negative each term has the sign of the sum it weighs. |
| `Pid.LateWeighsByItsOwnGain` | power-libperfmgr/PowerHintSession.cpp:98-99 | Target 10 ms, gains 2 and 1: a frame of 12 ms gives 40 and one of 8 ms gives -20. |
| `Pid.ErrorsAreLateness` | power-libperfmgr/PowerHintSession.cpp:85 | An error is how late its frame came in whole steps of 0.1 ms, the rest dropped toward zero. |
| `Pid.BatchesCompose` | power-libperfmgr/PowerHintSession.cpp:77-97 | With all windows 0, batch xs then ys leaves the same integral and previous error as xs ++ ys, and error and derivative sums add. |
| `Pid.DerivativeTelescopes` | power-libperfmgr/PowerHintSession.cpp:77-97 | For any windows the derivative sum is the last error minus the one just before its window (or the carried one). |
| `Pid.ErrSumIsWindowSum` | power-libperfmgr/PowerHintSession.cpp:77-97 | The proportional sum is the sum of exactly its window's errors. |
| `Pid.IntegralInBounds` | power-libperfmgr/PowerHintSession.cpp:91-95 | After any non-empty batch the integral is inside its bounds, wherever it started. |
| `Pid.IntegralStopsAtBound` | power-libperfmgr/PowerHintSession.cpp:91-95 | Each error of the integral window moves it by error times step; a bound it would pass holds it. |
| `Pid.IntegralIsSumUnlessClamped` | power-libperfmgr/PowerHintSession.cpp:91-95 | If no partial sum leaves the bounds, the integral is the plain sum over its window. |
| `SessionTimer.SessionTimerHandler.ResendLocked` | power-libperfmgr/PowerHintSession.cpp:469-476 | One locked region replaces whatever was queued by one message. |
| `SessionTimer.SessionTimerHandler.Act` | power-libperfmgr/PowerHintSession.cpp:480-499 | Too early: re-queue for the rest of the time; else `onTimeout` runs. |
| `SessionTimer.SessionTimerHandler.SetSessionDead` | power-libperfmgr/PowerHintSession.cpp:501-506 | Dead, with an empty queue. |
| `SessionTimer.NextKeepsInv` | power-libperfmgr/PowerHintSession.cpp:466-506 | Every step of caller, looper and closing thread keeps the timer invariant. |
| `SessionTimer.DeadlinesAreKept` | power-libperfmgr/PowerHintSession.cpp:466-506 | In every interleaving at most one message is queued, no `onTimeout` ran before the deadline it read, and a deadline not acted upon still has a message queued, a caller about to queue one, or a handler about to look. |
| `TimerUpdates.FiringsKeepTheirDelay` | power-libperfmgr/PowerHintSession.cpp:466-499 | In every interleaving the deadline in force is the clock read plus delay of the last `updateTimer` that stored one, a firing's is that of the call it names, and `onTimeout` never runs before it. |
| `TimerUpdates.MessagesAreDueAtDeadline` | power-libperfmgr/PowerHintSession.cpp:466-499 | A message is due at its deadline, later only by the time passed since the clock was read. |
| `SessionTimer.NothingFiresWhenDead` | power-libperfmgr/PowerHintSession.cpp:480-506 | After `setSessionDead` nothing fires, not even after a later `updateTimer`. |
| `SessionTimer.KillingEmptiesForGood` | power-libperfmgr/PowerHintSession.cpp:466-506 | A `setSessionDead` that gets in while the caller is idle empties the queue for good, and nothing fires any more, if nobody updates the timer again. |
| `SessionTimer.DeadExactlyOnceIn` | power-libperfmgr/PowerHintSession.cpp:480-506 | Over any run the timer is dead if and only if some `setSessionDead` came while no handler was past its dead check: the closed lock orders the two. |
| `SessionTimer.HandlingServes` | power-libperfmgr/PowerHintSession.cpp:480-499 | Handling a due message when the current deadline has passed acts on that deadline. |
| `SessionTimer.PendingIsServed` | power-libperfmgr/PowerHintSession.cpp:466-499 | From any reachable state with the caller idle, at most ten looper and clock steps act on a pending deadline. |
| `SessionTimer.PendingServedInSeven` | power-libperfmgr/PowerHintSession.cpp:480-499 | Under EVERY schedule without interference, a pending deadline that has passed is acted upon within seven steps of the looper's own. |
| `SessionTimer.LooperNeverStuck` | power-libperfmgr/PowerHintSession.cpp:480-499 | While a deadline is pending the looper has such a step, at the latest when the queued message is due. |
| `Buckets.LookupIsMap` | RevampedFMRadio/jni/ConfFileParser.cpp:382-429 | For any hash function, walking a key's chain is looking it up in the map all chains stand for. |
| `Buckets.PushRefinesMap` | RevampedFMRadio/jni/ConfFileParser.cpp:606-648 | Linking a new entry in front of its chain adds exactly that key to the map and one to the number of entries. |
| `Buckets.RevalueRefinesMap` | RevampedFMRadio/jni/ConfFileParser.cpp:794-878 | Changing what one group holds changes exactly that group in the map. |
| `Buckets.FlatListsKeysOnce` | RevampedFMRadio/jni/ConfFileParser.cpp:275-378 | Walking all chains lists every key of the map exactly once. |
| `ConfTable.Group.FindKey` | RevampedFMRadio/jni/ConfFileParser.cpp:382-429 | The chain walk finds a node with the key's value if and only if the group holds the key. |
| `ConfTable.Group.AddKey` | RevampedFMRadio/jni/ConfFileParser.cpp:821-867 | Refused, with nothing changed, if and only if the key exists; else exactly that pair is added and the counter with it. |
| `ConfTable.GroupTable.GrpExist` | RevampedFMRadio/jni/ConfFileParser.cpp:578-604 | True if and only if the map has the group. |
| `ConfTable.GroupTable.AddGrp` | RevampedFMRadio/jni/ConfFileParser.cpp:606-648 | Refused, with nothing changed, if and only if the group exists; else an empty group is added. |
| `ConfTable.GroupTable.AddKeyValuePair` | RevampedFMRadio/jni/ConfFileParser.cpp:794-878 | Accepted if and only if the key is not empty, the group exists and has no such key; a refusal changes nothing. |
| `ConfTable.GroupTable.GetValue` | RevampedFMRadio/jni/ConfFileParser.cpp:382-429 | The value of the map of maps, or nothing. |
| `ConfTable.GroupTable.GetKeys` | RevampedFMRadio/jni/ConfFileParser.cpp:320-378 | Null if and only if there is nothing to list; else each key of the group exactly once, then the terminator, inside the array it allocates. |
| `ConfTable.GroupTable.GetGrps` | RevampedFMRadio/jni/ConfFileParser.cpp:275-316 | Null if and only if there is no group; else each group name exactly once, then the terminator. |
| `ConfFileParser.LineIsComment` | RevampedFMRadio/jni/ConfFileParser.cpp:559-573 | Blank or starting with `#`. |
| `ConfFileParser.FindGrpName` | RevampedFMRadio/jni/ConfFileParser.cpp:668-720 | The pointer walk recognises exactly the group lines of the grammar and yields their name. |
| `ConfFileParser.LineIsGrp` | RevampedFMRadio/jni/ConfFileParser.cpp:655-730 | Accepted if and only if the line is a group line naming a new group, which becomes the current one; else nothing changes. |
| `ConfFileParser.FindKeyValue` | RevampedFMRadio/jni/ConfFileParser.cpp:750-785 | The walk up to the first `=` recognises exactly the pair lines and yields key and value. |
| `ConfFileParser.LineIsKeyValuePair` | RevampedFMRadio/jni/ConfFileParser.cpp:738-792 | Accepted if and only if the line is a pair the current group can take; else nothing changes. |
| `ConfFileParser.ParseLine` | RevampedFMRadio/jni/ConfFileParser.cpp:527-557 | Verdict, table and current group are those of the grammar's effect of the line. |
| `ConfFileParser.TakeChar` | RevampedFMRadio/jni/ConfFileParser.cpp:489-512 | One character does to buffer, flags, table and verdict what one step of the loader automaton does. |
| `ConfFileParser.ParseLoad` | RevampedFMRadio/jni/ConfFileParser.cpp:463-522 | For any blocks: the verdict and the table are those of parsing the whole text line by line, and every write is inside the line buffer. |
| `ConfGrammar.FeedLine` | RevampedFMRadio/jni/ConfFileParser.cpp:488-512 | Fed one line, the loader collects its body and refuses it if and only if a carriage return is followed by anything but another. |
| `ConfGrammar.FeedIsParseText` | RevampedFMRadio/jni/ConfFileParser.cpp:485-518 | Character by character and line by line readings of a text agree in verdict and table. |
| `ConfGrammar.CuttingDoesNotMatter` | RevampedFMRadio/jni/ConfFileParser.cpp:485-518 | Two cuttings of one text into blocks lead to the same loader state, the one of reading the text line by line. |
| `ConfGrammar.ParseRendered` | RevampedFMRadio/jni/ConfFileParser.cpp:655-792 | Written-out groups parse, and extend the table by exactly themselves. |
| `ConfGrammar.RoundTrip` | RevampedFMRadio/jni/ConfFileParser.cpp:463-557 | Any configuration with distinct alphanumeric names and one-line values, written as `[g]` and `k=v` lines, parses back to exactly those groups and pairs. |
| `ConfGrammar.CharacterClasses` | RevampedFMRadio/jni/ConfFileParser.cpp:527-576 | Names are made of digits and letters, and the characters skipped at the start of a line are the blank and codes 9 to 13. |
| `ConfGrammar.CommentLineIff` | RevampedFMRadio/jni/ConfFileParser.cpp:527-576 | A comment is white space and then nothing, or a # and anything. |
| `ConfGrammar.GroupLineIff` | RevampedFMRadio/jni/ConfFileParser.cpp:655-725 | A line names a group if and only if it is white space, a name of letters and digits in brackets, and blanks. |
| `ConfGrammar.PairLineIff` | RevampedFMRadio/jni/ConfFileParser.cpp:736-792 | A line is a pair if and only if it is white space, a key of letters and digits, =, and all the rest as value. |
| `ConfGrammar.ParseInPieces` | RevampedFMRadio/jni/ConfFileParser.cpp:480-523 | Reading whole lines and then the rest is reading all of it. |
| `ConfGrammar.CommentChangesNothing` | RevampedFMRadio/jni/ConfFileParser.cpp:527-576 | A comment line anywhere in a text changes neither table nor verdict. |
| `ConfGrammar.IndentChangesNothing` | RevampedFMRadio/jni/ConfFileParser.cpp:527-576 | Nor does white space at the start of any line. |
| `ConfGrammar.RepeatedGroupRefused` | RevampedFMRadio/jni/ConfFileParser.cpp:606-618 | A text that names a group again is refused there, with the table so far, whatever follows. |
| `ConfGrammar.RepeatedKeyRefused` | RevampedFMRadio/jni/ConfFileParser.cpp:738-842 | So is one with a key its group has already, or with a pair before any group. |
| `ConfGrammar.StrayReturnRefused` | RevampedFMRadio/jni/ConfFileParser.cpp:480-513 | So is one with a carriage return in the middle of a line. |
| `ConfGrammar.UnfinishedLineDropped` | RevampedFMRadio/jni/ConfFileParser.cpp:480-523 | A last line without its newline is dropped. |
| `SetMap.LocUnorderedSetMap.TrimSet` | gps/utils/LocUnorderedSetMap.h:52-60 | Leaves the difference and collects exactly the removed values. |
| `SetMap.LocUnorderedSetMap.TrimOrRemove` | gps/utils/LocUnorderedSetMap.h:84-150 | Trims every named entry, drops those that end up empty, and reports exactly the dropped keys and removed values. |
| `SetMap.LocUnorderedSetMap.AddToKey` | gps/utils/LocUnorderedSetMap.h:154-166 | Adds the values under the key; a new entry is reported if and only if one is made. |
| `SetMap.LocUnorderedSetMap.Add` | gps/utils/LocUnorderedSetMap.h:169-183 | Adds the values under every key; reports exactly the new ones. |
| `SetMap.LocUnorderedSetMap.RemoveAndReturnInterset` | gps/utils/LocUnorderedSetMap.h:62-79 | Splits two sets into their intersection and the two remainders. |
| `SetMap.LocUnorderedSetMap.Update` | gps/utils/LocUnorderedSetMap.h:185-198 | Replaces the entry (erases it for no values) and returns the INTERSECTION of old and new values, although the comment in the source promises the removed ones. |
| `OsObserver.SystemStatusOsObserver.SetSubscriptionObj` | gps/core/SystemStatusOsObserver.cpp:59-90 | Installs the object, which is at once asked for everything clients hold. |
| `OsObserver.SystemStatusOsObserver.Subscribe` | gps/core/SystemStatusOsObserver.cpp:91-137 | Equals the `Subscribed` step, whose effect on relations, cache messages and framework is stated by `OsEffects.SubscribeAdds`, `SubscriberIsToldCached` and `SubscribeAsks`. |
| `OsObserver.SystemStatusOsObserver.UpdateSubscription` | gps/core/SystemStatusOsObserver.cpp:139-208 | Equals the `Updated` step, with the set map as it really behaves. |
| `OsObserver.SystemStatusOsObserver.Unsubscribe` | gps/core/SystemStatusOsObserver.cpp:211-250 | Equals the `Unsubscribed` step. |
| `OsObserver.SystemStatusOsObserver.UnsubscribeAll` | gps/core/SystemStatusOsObserver.cpp:252-291 | Equals the `UnsubscribedAll` step. |
| `OsObserver.SystemStatusOsObserver.Notify` | gps/core/SystemStatusOsObserver.cpp:296-370 | Equals the `Notified` step: cache first, then one note per interested client. |
| `OsObserver.SystemStatusOsObserver.SendCachedDataItems` | gps/core/SystemStatusOsObserver.cpp:513-539 | Sends exactly the items that are cached, and nothing when there are none. |
| `OsEffects.SubscriberIsToldCached` | gps/core/SystemStatusOsObserver.cpp:102-107 | A subscribe sends one message: it notifies the client, and nobody else, exactly when some asked item is cached, of exactly the asked items that are, with the cached values. |
| `OsEffects.UpdaterIsToldCached` | gps/core/SystemStatusOsObserver.cpp:148-174 | `updateSubscription` does the same for the items the client did not hold before. |
| `OsEffects.SubscribeAdds` | gps/core/SystemStatusOsObserver.cpp:102-105 | A subscribe adds the asked items to what the client holds, in both relations; nothing of other clients changes. |
| `OsEffects.UnsubscribeTakes` | gps/core/SystemStatusOsObserver.cpp:220-227 | Unsubscribing takes the named items away from the client, as far as it holds them, and nothing else. |
| `OsEffects.UnsubscribeAllTakesAll` | gps/core/SystemStatusOsObserver.cpp:259-266 | Unsubscribing from everything leaves the client with nothing and the others as they were. |
| `OsEffects.InstallingAsksForAll` | gps/core/SystemStatusOsObserver.cpp:59-90 | An installed object is asked to subscribe to all held items and then for their data, in this order, and for nothing if none is held. |
| `OsEffects.SubscribeAsks` | gps/core/SystemStatusOsObserver.cpp:109-122 | With `toRequestData` the framework gets one data request for the asked items; otherwise one subscription to those nobody held, if any. |
| `OsEffects.UnsubscribeEnds` | gps/core/SystemStatusOsObserver.cpp:220-237 | Unsubscribing ends with the framework exactly the items the client was the last to hold. |
| `OsEffects.UnsubscribeAllEnds` | gps/core/SystemStatusOsObserver.cpp:259-281 | So does unsubscribing from everything. |
| `OsEffects.UpdateAsks` | gps/core/SystemStatusOsObserver.cpp:148-196 | An update first asks for the items new to the client that nobody held, then ends those it asks for AGAIN and is the last to hold. |
| `OsEffects.CacheHoldsLast` | gps/core/SystemStatusOsObserver.cpp:541-566 | After a notification the cache holds, of each item, the last report accepted as a change, or what it held before. |
| `OsObserver.StepKeepsEntriesNonEmpty` | gps/core/SystemStatusOsObserver.cpp:59-370 | No message leaves an empty entry in either relation. |
| `OsObserver.UpdateLeavesSymmetricDifference` | gps/core/SystemStatusOsObserver.cpp:139-208 | After `updateSubscription` the client is registered for the symmetric difference of what it held and what it asks for; other clients are untouched. |
| `OsObserver.StepKeepsConverseIff` | gps/core/SystemStatusOsObserver.cpp:59-370 | A message keeps the two relations converse if and only if it is not an `updateSubscription` by a client that already holds items. |
| `OsObserver.AlwaysConverseIff` | gps/core/SystemStatusOsObserver.cpp:59-370 | Over any run the relations are converse after every message if and only if every update comes from a client holding nothing at the time. |
| `OsObserver.ReachableConverse` | gps/core/SystemStatusOsObserver.cpp:59-370 | Such a run leaves them converse and without empty entries. |
| `OsObserver.StepKeepsMirrorIff` | gps/core/SystemStatusOsObserver.cpp:59-291 | A message keeps the items asked of the framework equal to the keys of the item relation if and only if it does not install an object already asked for an item nobody holds. |
| `OsObserver.AlwaysMirroredIff` | gps/core/SystemStatusOsObserver.cpp:59-291 | Over any run the framework is in step after every message if and only if no installed object has been asked for an item nobody holds. |
| `OsObserver.ReachableMirror` | gps/core/SystemStatusOsObserver.cpp:59-291 | Such a run leaves it in step. |
| `OsObserver.ReinstalledObjectIsStale` | gps/core/SystemStatusOsObserver.cpp:59-90 | Five messages that get there: an object replaced, then installed again after the last unsubscription, still has a request standing. |
| `OsObserver.NotifyReachesExactlySubscribers` | gps/core/SystemStatusOsObserver.cpp:296-370 | With converse relations a client is notified exactly when one of the reports is an accepted change of an item it holds, of exactly those items with their newest values; nothing but cache and messages changes. |
| `OsObserver.RepeatedUpdateLosesNotifications` | gps/core/observer/IDataItemSubscription.h:67-81 | The documented meaning of `updateSubscription` fails: repeating it with the item already held ends the delivery of that item. |
| `OsObserver.MovedSubscriptionStaysRegistered` | gps/core/SystemStatusOsObserver.cpp:139-208 | Moving a subscription from one item to a different one, with no item in common, leaves the client registered for the first. |
| `ActionRequests.RequestCounter.TurnOn` | gps/core/SystemStatusOsObserver.cpp:375-412 | Counts the holder; the framework is asked only for the first. |
| `ActionRequests.RequestCounter.TurnOff` | gps/core/SystemStatusOsObserver.cpp:414-447 | Uncounts it; the framework is asked, and the entry dropped, only for the last. |
| `ActionRequests.OnExactlyWhileHeld` | gps/core/SystemStatusOsObserver.cpp:375-447 | Over any run the framework has an item on if and only if somebody holds it, and is never asked for what it already does. |
| `ActionRequests.CalledByFirstAndLast` | gps/core/SystemStatusOsObserver.cpp:375-447 | Over any run the framework is called only by the first holder of an item, with that holder's time-out, and by the last. |
| `ChangeHistory.History.SetItemInReport` | gps/core/SystemStatus.cpp:1346-1364 | Returns true if and only if the merged item differs from the newest stored one; stores it within the bound, or only refreshes the time. |
| `ChangeHistory.History.SetDefaultItemInReport` | gps/core/SystemStatus.cpp:1366-1373 | Stores unconditionally, within the bound. |
| `ChangeHistory.TrimCommutes` | gps/core/SystemStatus.cpp:1346-1364 | What an event does depends on the newest entry only, so bounding the history changes no decision. |
| `ChangeHistory.StoredIsTailOfFull` | gps/core/SystemStatus.cpp:1346-1364 | Over any events the stored history is the last five entries of the unbounded one, and neither repeats itself. |
| `ChangeHistory.NewestCarriesTime` | gps/core/SystemStatus.cpp:1346-1364 | After an event that is not ignored the newest entry carries its time, and is its merged item or, if the two count as equal, the entry from before. |
| `NetworkInfo.NetworkInfoItem.Collate` | gps/core/SystemStatus.h:494-558 | Equals the specification: copied table, APN rule, insert or swap-with-last delete, type mask. |
| `NetworkInfo.NetworkInfoItem.InsertHandle` | gps/core/SystemStatus.h:509-526 | Fills the first free slot unless the handle is there before it. |
| `NetworkInfo.NetworkInfoItem.DeleteHandle` | gps/core/SystemStatus.h:527-549 | Moves the last entry into the gap; counts the other handles of the type. |
| `NetworkInfo.NetworkInfoItem.Equals` | gps/core/SystemStatus.h:484-492 | Equality of mask, flag, table and APN. |
| `NetworkInfo.InsertRefinesMap` | gps/core/SystemStatus.h:509-526 | A connect lists its handle with the raw type it names, unless the handle is unknown, listed already (whose type then stays) or does not fit. |
| `NetworkInfo.InsertAddsHandle` | gps/core/SystemStatus.h:509-526 | The handle set grows by exactly the handle if and only if it is known and listed already or there is room; an unknown handle or a full table changes nothing. |
| `NetworkInfo.DeleteRefinesMap` | gps/core/SystemStatus.h:527-549 | A disconnect removes exactly its handle if the table lists it with exactly the raw type named, and else nothing; no hole and no duplicate is left. |
| `NetworkInfo.DeleteNeedsTheType` | gps/core/SystemStatus.h:523-535 | A listed handle survives a disconnect if and only if it names another type than the table has. |
| `NetworkInfo.EventRefinesMap` | gps/core/SystemStatus.h:494-558 | One event, of any types, does to a well-formed table exactly what `MapStep` says. |
| `NetworkInfo.TableRefinesMap` | gps/core/SystemStatus.cpp:1346-1364 | After ANY run of events, stored or not, the newest stored table has no holes and no duplicates and is the map the run means; the first event's entry has its initial type, all others raw types. |
| `NetworkInfo.AlwaysRightIff` | gps/core/SystemStatus.h:494-558 | Over any run, the table lists exactly the handles connected and not yet disconnected after every event, if and only if the first event is no disconnect of a known handle and no later one is a connect that does not fit or a disconnect without mask bit or with another type than listed. |
| `NetworkInfo.FirstEventRightIffConnect` | gps/core/SystemStatus.cpp:1346-1364 | The very first event is stored unmerged, so after it the table is right if and only if it is not the disconnect of a known handle. |
| `NetworkInfo.TableIsLiveSetAndPhantom` | gps/core/data-items/DataItemConcreteTypes.h:267-291 | With one raw type per handle, mask bits and room: the table lists exactly the live handles and the phantom, which is the first handle when its initial type is not its raw one, or when it was disconnected first and is never named again; so it is right if and only if the phantom is live. |
| `NetworkInfo.TableIsLiveSet` | gps/core/SystemStatus.cpp:1735-1745 | So it lists exactly the live handles when the first event is a connect as `eventConnectionStatus` builds it (or names no known handle) and at most ten are ever live. |
| `NetworkInfo.FirstDataItemStaysListed` | gps/core/data-items/DataItemConcreteTypes.h:267-338 | A first handle reported through the public constructor, with any raw type that has a mask bit, stays listed for ever; the table is right if and only if it is live. |
| `NetworkInfo.RawTypeIsNeverRemoved` | gps/core/data-items/DataItemConcreteTypes.h:267-338 | Two events of the public constructor with raw type 100, a connect and a disconnect of one handle, leave it listed as type 1. |
| `NetworkStatus.NewestIsLastEvent` | gps/core/SystemStatus.cpp:1346-1364 | The newest stored item says whether the last event was a connect, and carries its time. |
| `NetworkStatus.NoApnSinceMobile` | gps/core/SystemStatus.h:496-499 | Without any APN reported since the last mobile event the newest item has none. |
| `NetworkStatus.ApnIsFirstSinceMobile` | gps/core/SystemStatus.h:496-499 | Over any run the newest item has the first APN that is not empty reported since the last mobile event, or since the first event if there is none. |
| `NetworkStatus.MaskAfter` | gps/core/SystemStatus.h:501-557 | A connect adds its type to the mask; a disconnect takes it away, unless another listed handle has the type, when it is ALL that stays; one without a mask bit leaves none. |
| `NetworkStatus.AlwaysMaskRightIff` | gps/core/SystemStatus.h:501-557 | Over any run of events as `eventConnectionStatus` builds them the mask is that of the types listed, after every event, if and only if no event goes wrong: no unlisted connect, and no disconnect while another handle of its type and one of a different type are listed. |
| `NetworkStatus.DisconnectDropsMobileBit` | gps/core/SystemStatus.h:550-555 | Two Wi-Fi networks and a mobile one connect and one Wi-Fi disconnects: the mobile one stays listed, its bit is gone. |
| `NetworkReset.ResetNetworkInfo` | gps/core/SystemStatus.cpp:1280-1288 | The loop sends one disconnect per stored item, its type cast to eight bits. |
| `NetworkReset.ResetDisconnectsEach` | gps/core/SystemStatus.cpp:1280-1288 | Each stored item is disconnected under its own handle and APN, with its type if that fits in eight bits and otherwise the one a multiple of 256 away that does. |
| `NetworkReset.ResetLeaves` | gps/core/SystemStatus.cpp:1280-1288 | After any run and a reset, a handle is listed if and only if it was and no stored item has a disconnect for it with mask bit and the listed type. |
| `NetworkReset.ResetEmptiesIff` | gps/core/SystemStatus.cpp:1280-1288 | So the table is empty after a reset if and only if every listed handle has such a stored item. |
| `NetworkReset.ConnectsStored` | gps/core/SystemStatus.cpp:1346-1364 | After connects of up to ten distinct known handles the stored items carry exactly the last five. |
| `NetworkReset.ResetLeavesEarliest` | gps/core/SystemStatus.cpp:1280-1288 | So with six to ten networks connected a reset leaves exactly all but the last five listed. |
| `AdapterArray.LocApiBase.AddAdapter` | gps/core/LocApiBase.cpp:236-245 | Appends a new adapter, if there is room, with one open message. |
| `AdapterArray.LocApiBase.CloseGap` | gps/core/LocApiBase.cpp:253-278 | The in-place move deletes exactly the named slot and ends the outer loop; close message if and only if nothing is left. |
| `AdapterArray.LocApiBase.RemoveAdapter` | gps/core/LocApiBase.cpp:247-281 | Deletes exactly the named adapter, once, despite the shared loop index; a close message is sent if and only if the array becomes empty. |
| `AdapterArray.StepRefinesSet` | gps/core/LocApiBase.cpp:236-281 | Each operation does to the array what it does to a bounded set. |
| `AdapterArray.ArrayIsABoundedSet` | gps/core/LocApiBase.cpp:236-281 | Over any run the array is a hole-free, duplicate-free listing of exactly that set. |
| `ElapsedRealtime.ElapsedRealtimeEstimator.GetElapsedRealtimeEstimateNanos` | gps/core/LocApiBase.cpp:937-985 | Estimate and new state are those of the specification, -1 when the clocks cannot be read. |
| `ElapsedRealtime.OtherFixesFallBack` | gps/core/LocApiBase.cpp:940-985 | An untrusted fix gets its boot time less the assumed travel time, an unreadable clock -1, and neither changes the estimator. |
| `ElapsedRealtime.BreakIsMissedPeriod` | gps/core/LocApiBase.cpp:953-957 | A trusted fix breaks the cadence if and only if it announces a positive period that is not the time since the last trusted fix. |
| `ElapsedRealtime.DiffTelescopes` | gps/core/LocApiBase.cpp:966-973 | The updated clock difference telescopes back to the anchoring fix. |
| `ElapsedRealtime.EstimateFollowsModemClock` | gps/core/LocApiBase.cpp:937-985 | From the anchoring fix to the next cadence break each trusted fix yields B0 - travel + (Dn - D0), whatever steps the UTC clock takes. |
| `ElapsedRealtime.ConsecutiveEstimatesDifferByPeriod` | gps/core/LocApiBase.cpp:937-985 | With a positive period consecutive estimates differ by exactly that period. |
| `ElapsedRealtime.ThresholdCountsDown` | gps/core/LocApiBase.cpp:953-979 | Since a break the threshold has gone down by one per trusted fix. |
| `ElapsedRealtime.SixthFixAnchors` | gps/core/LocApiBase.cpp:953-979 | The breaking fix and the next four fall back to the assumed travel time; a fix in cadence anchors if and only if it is the sixth. |
| `ElapsedRealtime.SixthFixAfterResetAnchors` | gps/core/LocApiBase.cpp:958-996 | After a reset without a break, as when no period is announced, the first five trusted fixes fall back and the sixth anchors. |
| `Geofence.GeofenceAdapter.StopClientSessions` | gps/geofence/GeofenceAdapter.cpp:51-81 | Erases exactly the client's id entries and sends one removal for each. |
| `Geofence.GeofenceAdapter.RestartGeofences` | gps/geofence/GeofenceAdapter.cpp:147-182 | Clears both maps and re-adds every fence once; with which data is stated by `GeofenceIntent.RestartAsksForEach` and `RestartsKeepIntent`. |
| `GeofenceIntent.RestartAsksForEach` | gps/geofence/GeofenceAdapter.cpp:147-182 | A restart forgets all fences and asks once for each of them: its key, breach mask, responsiveness, dwell time, latitude, longitude and radius, with the pause to follow if it was paused; it asks for nothing else. |
| `GeofenceIntent.GrantKeepsAndPauses` | gps/geofence/GeofenceAdapter.cpp:168-181 | Once granted, a fence is kept under its key with what was asked for, and the modem is asked to pause it exactly if that was to follow. |
| `GeofenceIntent.RestartsKeepIntent` | gps/geofence/GeofenceAdapter.cpp:147-182 | Over any run each fence and each outstanding add has the area of the command that first added it and the option last set, through any number of restarts. |
| `GeofenceIntent.PausesSurviveIff` | gps/geofence/GeofenceAdapter.cpp:168-181 | Over any run the adapter remembers as paused exactly what clients paused, after every step, if and only if no paused fence is ever granted again after a restart. |
| `GeofenceIntent.SecondRestartResumes` | gps/geofence/GeofenceAdapter.cpp:168-181 | A run that gets there: a fence is added, granted and paused; the second restart asks for it without a pause. |
| `GeofenceIntent.RemovalTakesBoth` | gps/geofence/GeofenceAdapter.cpp:669-692 | Removing a fence removes exactly it and its entry, and nothing if the entry is gone. |
| `GeofenceIntent.StopAsksForEach` | gps/geofence/GeofenceAdapter.cpp:51-81 | Stopping a client takes away exactly its entries, and asks for one removal for each of them. |
| `Geofence.GeofenceAdapter.SaveGeofenceItem` | gps/geofence/GeofenceAdapter.cpp:650-667 | Installs the fence and its id entry together. |
| `Geofence.GeofenceAdapter.RemoveGeofenceItem` | gps/geofence/GeofenceAdapter.cpp:669-692 | Removes both entries, or neither when the key is gone. |
| `Geofence.GeofenceAdapter.PauseGeofenceItem` | gps/geofence/GeofenceAdapter.cpp:694-704 | Marks a known fence as paused and changes nothing else. |
| `Geofence.GeofenceAdapter.ModifyGeofenceItem` | gps/geofence/GeofenceAdapter.cpp:718-732 | Changes the option of a known fence and nothing else; what this means to later restarts is `GeofenceIntent.RestartsKeepIntent`. |
| `Geofence.GeofenceAdapter.GeofenceBreach` | gps/geofence/GeofenceAdapter.cpp:792-824 | The two loops produce exactly the notices of the specification. |
| `Geofence.NextKeepsInv` | gps/geofence/GeofenceAdapter.cpp:51-182 | Every command, every modem response in any order and every restart keeps the invariant on maps and outstanding requests. |
| `Geofence.ReachableInv` | gps/geofence/GeofenceAdapter.cpp:51-182 | It holds in every run. |
| `Geofence.MapsAreInverses` | gps/geofence/GeofenceAdapter.cpp:650-692 | In every run each id entry points at a fence carrying its key; the maps are full inverses if and only if no fence's removal for a stopped client is outstanding or refused. |
| `Geofence.ComesBackIff` | gps/geofence/GeofenceAdapter.cpp:51-81 | However the run goes on after a client is stopped, without commands of its own: it at some point has an entry or an add outstanding if and only if it had one outstanding, or the engine restarts while a removal of its fences is outstanding or refused. |
| `Geofence.StoppedClientReturnsIff` | gps/geofence/GeofenceAdapter.cpp:147-182 | Stopping takes all entries away, but some continuation gives the client one again if and only if it had a fence or an add outstanding. |
| `Geofence.StoppedClientReturns` | gps/geofence/GeofenceAdapter.cpp:147-182 | A run that gets there: one fence added and granted, its client stopped, and a continuation gives the client an entry. |
| `Geofence.BreachLeadsBack` | gps/geofence/GeofenceAdapter.cpp:792-824 | In any reachable state what a client is told are its own ids, one per reported fence of its own, in report order; each leads back to the reported hardware id if and only if that fence is not orphaned. |
| `Geofence.EveryKnownReportDelivered` | gps/geofence/GeofenceAdapter.cpp:792-824 | Every known reported id goes to exactly one of the owners, unknown ones to nobody. |
| `Geofence.NoticesGoToOwners` | gps/geofence/GeofenceAdapter.cpp:792-824 | A notice goes to exactly the clients that have a callback and own a reported fence. |
| `Geofence.NoticesAreInOrder` | gps/geofence/GeofenceAdapter.cpp:799-823 | Notices go out in the order of the clients, so none is told twice. |
| `Thermal.ThermSensor.constructor` | thermal/thermalCommon.cpp:237-266 | Severity NONE, thresholds at SEVERE and SHUTDOWN only where configured and on the configured ramp, all others unknown. |
| `Thermal.ThermSensor.EstimateSeverity` | thermal/thermalCommon.cpp:394-439 | The descending loop finds the highest level that holds, with hysteresis for the current one; -1 if and only if unchanged; the previous status is remembered only on a change. |
| `Thermal.ThermSensor.InitThreshold` | thermal/thermalCommon.cpp:465-527 | The trip is the next defined level above, the hysteresis reaches down to the current one; nothing on a cold ramp or under another policy. |
| `Thermal.SeverityIsUnique` | thermal/thermalCommon.cpp:394-439 | "The highest level that holds" determines the severity: the reference the loop is proved against. |
| `Thermal.HotSeverityIff` | thermal/thermalCommon.cpp:405-425 | On a hot ramp: the highest defined level whose threshold the reading has reached, or is within 5000 below when the sensor is at it; NONE without one. |
| `Thermal.ColdSeverityIff` | thermal/thermalCommon.cpp:405-425 | On a cold ramp: the highest defined level whose threshold the reading has fallen to, or is within 5000 above when the sensor is at it; NONE without one. |
| `Thermal.ColdStaysNoneIff` | thermal/thermalCommon.cpp:405-425 | A cold sensor at NONE stays there if and only if the reading is above every defined threshold. |
| `Thermal.ColdRestsIff` | thermal/thermalCommon.cpp:405-425 | With descending cold thresholds and a level above, the severity is unchanged exactly for readings above the next threshold and at most 5000 above its own. |
| `Thermal.SeverityIsMonotone` | thermal/thermalCommon.cpp:394-439 | From the same level a higher reading never means less on a hot ramp, nor more on a cold one. |
| `Thermal.ConfiguredSeverity` | thermal/thermalCommon.cpp:237-266 | A configured sensor at NONE reports SHUTDOWN beyond its shutdown threshold, else SEVERE beyond its throttling one, else NONE, on either ramp. |
| `Thermal.FallingBattery` | thermal/thermalConfig.cpp:125-133 | The battery voltage sensor (falling, 3200 and 3000) is at NONE for 4000, SEVERE for 3100, SHUTDOWN for 2900. |
| `Thermal.ReevaluationIsQuiet` | thermal/thermalCommon.cpp:394-439 | Evaluating the same reading again never reports a change, on hot and cold ramps. |
| `Thermal.ReachedByTrace` | thermal/thermalCommon.cpp:394-439 | The severity after any trace is the first one unreported, NONE, or one some reading really reached. |
| `Thermal.NoDropOnceMoved` | thermal/thermalCommon.cpp:394-439 | Over a trace narrower than the hysteresis the severity never drops after the first report. |
| `Thermal.BoundedNotifications` | thermal/thermalCommon.cpp:394-439 | Over such a trace of any length it drops at most once, only from the severity it started with, and the reports are at most the number of levels. |
| `Thermal.WindowMatchesSeverity` | thermal/thermalCommon.cpp:493-524 | Ascending hot thresholds, a level above: severity unchanged if and only if the reading is in [trip - hyst, trip). |
| `Thermal.WindowRightIffLevelAbove` | thermal/thermalCommon.cpp:493-518 | The programmed window is right for all readings if and only if a defined level above exists, whatever integer NaN turns into. |
| `Thermal.TopLevelWindowIsWrong` | thermal/thermalCommon.cpp:493-518 | One reading takes any configured hot sensor with a shutdown threshold to its top level, where some reading leaves the severity unchanged outside the window. |
| `Thermal.UnchangedAtTopLevel` | thermal/thermalCommon.cpp:394-439 | With no level above only the lower edge matters. |
| `Thermal.TripMatchesFirstRise` | thermal/thermalCommon.cpp:493-509 | At NONE the trip is exactly where severity starts to rise. |

## Left out

- Logging, tracing, sysfs and `ioctl` plumbing, JNI, binder, netlink, memory freeing and allocation failure.
- Lights, charger, init, camera, touch, batching adapter and the other FM radio classes: thin I/O, finite tables, or bookkeeping without a clean invariant.
- Interaction boost: `Init` and `Exit` are not run concurrently with each other; `EndHint` on the same hint by other parts of the power HAL is not modelled; the worker's unlocked read of the duration is one atomic step; seconds are bounded so that their millisecond count fits a 64-bit integer.
- HintSession: the methods of the session object, and the operations of `TrueMin`, are whole calls; the interleaving of a hint with the boost timer is `BoostRace`. Two hints at once are not modelled. Tracing and the universal boost mode are left out; a session's staleness is a parameter.
- HintSession.PowerHintSession.Pause: requires that no other session shares this session's descriptor object, as the constructor guarantees; so does `Close`.
- SessionTimer: one caller of `updateTimer` at a time; other handlers of the looper are not modelled.
- Pid: gains are reals and rounding of floating point is not modelled; 64-bit overflow is not modelled; for a target below 100 microseconds the division by zero is a parameter standing for whatever the cast yields.
- ConfFileParser: text has no NUL bytes; the arithmetic of `get_hash_code` is any deterministic function; opening the file is left out.
- OsObserver: `operator[]` inserting an empty entry just before it is overwritten is not modelled; the backhaul requests compiled only with GLib are left out.
- SetMap.LocUnorderedSetMap.RemoveAndReturnInterset: the source erases the element its iterator stands on and then advances it; the model does what the loop intends.
- SetMap.LocUnorderedSetMap.TrimOrRemove: the source reads the key of an entry it has just erased; the model does what the loop intends.
- OsObserver.RepeatedUpdateLosesNotifications: its run passes through that loop with a common element; `MovedSubscriptionStaysRegistered` does not.
- Geofence.GeofenceAdapter.StopClientSessions: only with sessions being erased; without, the loop in the source does not advance. Session ids are unique, and the modem reuses a hardware id only when it is free.
- TrueMin.TemporaryKeepsTrueMin: over whole calls; under interleaving with the boost timer the exact conditions are `BoostRace.TrueMinSurvivesIff` and `ResumeAlwaysSurvives`.
- KernelClamp: a call is one action; a session times out, and its stale timer fires, as actions of the environment; reports that the source rejects for lack of a duration or of data are left out.
- NetworkReset: the disconnects a reset queues are handled after its loop has ended.
- OsObserver.SystemStatusOsObserver.UpdateCache: whether the system status accepts a report is part of the report; for network items that decision is `ChangeHistory` and `NetworkInfo`.
- NetworkInfo: every item arrives freshly constructed, not with a table an earlier notification has written into it.
- NetworkStatus.AlwaysMaskRightIff: for events whose initial and raw type agree, as `eventConnectionStatus` builds them; the mask is modelled as the set of its bits.
- Thermal: temperatures are exact integers in raw units; reading the files and the virtual-reality threshold are left out.
- ElapsedRealtime: the Qtimer and PVT/measurement time pairs are left out.
