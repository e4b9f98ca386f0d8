# Torpor, modelled and verified in Dafny

Torpor rolls firmware out to devices that sleep, lie, lose their radio and cannot be recreated. This
project models the decisions its controller, mapper and firmware make, and proves what those decisions
amount to over whole runs.

The centre is the firmware rollout controller as a step machine. One reconcile replans the fleet
(`Planner`, `Capability`), folds in the maintenance windows (`Schedule`, `Compose`), observes devices, checks
the stop conditions, picks a step allowance, clamps a budget and writes desired firmware (`Rollout`). Reads may
be arbitrarily stale, device writes may fail and status writes may be lost. `Gates` reads off its inputs what stops
a reconcile and how much it writes; `RolloutRuns`, `CanaryRuns` and `BudgetRuns` prove properties of every run of the
machine; `ClosedLoop` joins it to the vivarium's devices (`Vivarium`), over every interleaving of reconciles,
deliveries and delayed flashes. Around it stand the learner of contact windows (`Contact`), two further classifiers
of the same fleet (`FleetViews`), the mapper's transport ladder (`Ladder`), serial framing and the bridge protocol
(`Text`, `Framing`, `Serial`), and enrollment (`Enrollment`).

Code that works by loops and assignment is a method proved against a function; the laws are lemmas about that
function. Time is an integer number of nanoseconds. A time zone is any assignment of calendar fields to
absolute minutes, so the general schedule results hold across daylight-saving changes.

`dafny verify dfyconfig.toml` checks the project.

## Where the code and its documentation disagree

The model follows the code. Each of these has a lemma that shows the disagreement, and where one exists the
exact condition under which the promise holds.

- A later window lifts an earlier one's device limit, although the answer is documented as the most restrictive
  (`Compose.LaterWindowLiftsLimit`). It is the most restrictive iff the last selecting window's is
  (`Compose.MostRestrictiveIffLast`), and in every order iff all limits agree (`Compose.LimitSafeInAnyOrder`).
- A limit of M devices per window lets 2M through at one instant (`BudgetRuns.LimitDoubles`). What was spent is
  honoured iff the counter is at most an hour old (`BudgetRuns.SpentIsHonoured`); without a restart M holds
  (`BudgetRuns.SentPerRestart`), and (H + 1) * M in any H hours (`BudgetRuns.HourlyRadius`).
- The canary caps devices per eligible list, not per fleet: one that falls asleep lets another be written
  (`CanaryRuns.CanaryNeedsContainment`). A reconcile keeps the cap iff everything written so far is still eligible, or
  the eligible list fits under the canary with it (`CanaryRuns.CapIsKeptExactly`; over runs, `CanaryRuns.CanaryHolds`
  and `CanaryRuns.CanaryHoldsExactly`).
- The battery floor is kept for every battery iff `cost * 100` does not overflow 32 bits (`Capability.FloorLaw`).
- Cron periods longer than two days close early (`Schedule.LookbackBound`, `Schedule.InPeriodExact`).
- A recurring period with a lower bound announces that bound as its opening even where it is closed
  (`Schedule.AnnouncedAndClosed`; exactly when, `Schedule.BoundedCronNextOpen`), and one with an upper bound
  announces that as its end (`Schedule.EndsBeforeAnnounced`; exactly when rightly, `Schedule.StaysOpen`).
- A freeze is still closed at the instant it announces (`Schedule.FreezeEndsLate`), and NextOpen can pass over a
  firing more than 370 days out (`Schedule.LeapDayOverlooked`; exactly when, `Schedule.NextOpenExact`).
- Twenty Newton steps do not converge on nanoseconds: a device that checks in every four hours, more or less a
  minute is rated Low for as long as it is observed (`Contact.SteadyDeviceIsDoubted`). The result is at
  least x / 2^20 and at most that much above the true root (`Contact.RootIsUnconverged`, `Contact.RootError`),
  which decides the rating from mean and variance outside a narrow band (`Contact.RatingDecided`).
- A cohort's incompatibility is a coin flip when the device has a fractional fail chance
  (`Vivarium.CohortIsDeterministic`), and devices asking a gateway at one instant can be told different things
  when its durations are negative (`Vivarium.SameInstantSameAnswer`).
- `requiresTransport: ota` asks for a transport of that name (`Ladder.OtaIsAName`).
- The tail of an overlong line is delivered as a line (`Framing.LineDeliversTail`), and a firmware token of 64
  characters or more is acted on every time it is repeated (`Serial.RepeatIsRecognised`).
- Of two devices claiming one node id only the later is flagged (`Enrollment.FirstClaimantNotFlagged`,
  `Enrollment.LaterClaimantFlagged`).
- A capable device that has never reported is "drifted and reachable" to the drift report and not actionable to
  the query (`FleetViews.DriftAgreesWithQuery`).

## Model

| member | source | states |
|---|---|---|
| Capability.CanAcceptOTA | controller/api/v1alpha1/capability_types.go:109-131 | accepts iff some declared transport carries the size; the refusal reason names size only when a size was given and transports exist |
| Capability.RefusedForSize | controller/api/v1alpha1/capability_types.go:109-131 | a device cannot take an image iff every OTA transport has a known capacity below a known size; a smaller image fits wherever a larger does |
| Capability.OTAAffordable | controller/api/v1alpha1/capability_types.go:134-164 | the loop computes the affordability predicate, in wrapping 32-bit arithmetic with truncating division |
| Capability.MaxOTACost | controller/api/v1alpha1/capability_types.go:149-154 | the cost used is an upper bound on every OTA transport's cost, and is attained when positive |
| Capability.SparesChargeExact | controller/api/v1alpha1/capability_types.go:155-163 | without overflow the truncating test accepts iff strictly more than floor - 1 percent remains untruncated |
| Capability.FloorLaw | controller/api/v1alpha1/capability_types.go:158-159 | the floor is kept for every battery iff 100 * cost fits in 32 bits |
| Planner.PlanRollout | controller/internal/planner.go:32-119 | the loop over the fleet computes exactly the eligible, refused and pending lists of the per-device verdict |
| Planner.OverOTA | controller/internal/planner.go:123-135 | the nested search finds an up, OTA-capable transport, or nothing was observed |
| Planner.AdmittedIsLicensed | controller/internal/planner.go:44-116 | an eligible device is awake, within its silence limit and, under requires.ota, has a carrier for the size, an open OTA door or none observed, and keeps its battery floor |
| Planner.LicensedIsAdmitted | controller/internal/planner.go:44-116 | conversely those conditions suffice; for a negative capacity or an overflowing cost, exactly when the wrapped 32-bit test spares the charge |
| Planner.PlanPartitions | controller/internal/planner.go:39-118 | the three lists together are a permutation of the fleet's names |
| Planner.PlanKeepsOrder | controller/internal/planner.go:39-118 | each list picks strictly increasing positions of the fleet |
| Planner.RefusedIgnoresReachability | controller/internal/planner.go:44-64 | changing state, contact times, open doors and the clock leaves the refused list identical |
| Planner.RefusedIffNever | controller/internal/planner.go:44-116 | a device is refused iff no state, contact, open door or later time would have the same hardware admitted |
| Planner.DeferredIffNotYet | controller/internal/planner.go:66-116 | a device is deferred iff it is not admitted now and the same hardware could be |
| Planner.RefusalReasons | controller/internal/planner.go:46-64 | which refusal is given, on the device's fields: no carrier, every carrier too small, or the battery |
| Planner.DeferralReasons | controller/internal/planner.go:66-116 | which deferral is given, in order: state, shut doors, silence; admitted iff none applies |
| Planner.ListedWithReason | controller/internal/planner.go:39-118 | the refused and pending lists hold exactly those verdicts with their reasons |
| Planner.ListingOrderIrrelevant | controller/internal/rollout_controller.go:340-343 | sorting makes the planner's input independent of the order in which a fleet of distinct names was listed |
| Planner.StepSizeExact | controller/internal/planner.go:143-152 | a step is the largest whole number of devices within its percentage, at least one, at most all |
| Schedule.SearchBack | controller/internal/window.go:183-196 | the backward loop returns the latest match of the look-back |
| Schedule.SearchAhead | controller/internal/window.go:198-211 | the forward loop returns the earliest match of the look-ahead |
| Schedule.LastFireIsLatest | controller/internal/window.go:188-195 | the found minute matches, lies in the look-back, and no later minute matches |
| Schedule.NextFireIsEarliest | controller/internal/window.go:203-210 | the found minute matches, lies in the look-ahead, and no earlier minute matches |
| Schedule.FieldsNarrow | controller/internal/window.go:173-179 | each field that is set narrows a cron to the minutes that have it, and all five together, day of month and weekday included |
| Schedule.EarliestOpening | controller/internal/window.go:121-142 | the loop over periods returns the earliest candidate |
| Schedule.OpenMeans | controller/internal/window.go:32-77 | open iff no deny period contains the instant and some allow period does, or there are none |
| Schedule.InPeriodExact | controller/internal/window.go:79-99 | for any duration and bounds, the bounded search is the unbounded schedule with each slot cut at 48 hours |
| Schedule.InPeriodIsDeclared | controller/internal/window.go:79-99 | up to 48h, inside a cron period iff within its bounds and some matching minute of unbounded history opened it and it has not run out |
| Schedule.AbsoluteMeans | controller/internal/window.go:79-92 | an absolute period holds between its bounds inclusive, one without bounds never, nor one whose cron cannot be read |
| Schedule.LookbackBound | controller/internal/window.go:189-195 | the bounded search is exact for every schedule and instant iff the duration is at most 48h |
| Schedule.StaysOpen | controller/internal/window.go:101-119 | the end a period announces is right for an absolute period, and for a recurring one iff no slot that runs out before it leaves a gap; unbounded slots of at most 48h never do |
| Schedule.EndIsAhead | controller/internal/window.go:101-119 | the announced end is the upper bound, or lies ahead at the end of the slot latest begun in all of history, and up to 48h the period is in force until then |
| Schedule.VerdictNamesPeriod | controller/internal/window.go:44-76 | NextClose of an open window and NextOpen of a denied one are the end of the first period in force, whose reason is given |
| Schedule.InForceThroughout | controller/internal/window.go:79-119 | a list of periods stays in force over an interval iff it is in force at the instants at which one of its periods ends |
| Schedule.QuietThroughout | controller/internal/window.go:79-119 | a list of periods stays out of force over an interval iff none is in force at the instants at which one of its periods or slots starts |
| Schedule.EndsBeforeAnnounced | controller/internal/window.go:101-105 | a nightly hour bounded above announces that bound as its end, days after the hour is over |
| Schedule.ClosedUntilNextOpen | controller/internal/window.go:61-76 | a window no deny rule closes now is closed at every instant before NextOpen, for any allow list and whatever denies it meanwhile, up to the first firing past the 370-day horizon |
| Schedule.WithinHorizon | controller/internal/window.go:203-210 | no firing within 370 days is overlooked, so up to there closed means closed |
| Schedule.NextOpenExact | controller/internal/window.go:61-76 | for simple allow lists NextOpen opens the window, and nothing opens it earlier iff no recurring period fires before it beyond the 370-day horizon |
| Schedule.RecurringNextOpenExact | controller/internal/window.go:61-76 | for recurring periods of positive length NextOpen is always exact: closed before it, open at it |
| Schedule.LeapDayOverlooked | controller/internal/window.go:203-210 | a 29 February more than 370 days off is overlooked beside any later absolute period: the window opens on it, before the NextOpen announced |
| Schedule.PureCronWithinHorizon | controller/internal/window.go:121-142 | recurring periods never announce an opening beyond the horizon, so exactness needs no further check |
| Schedule.BoundedCronNextOpen | controller/internal/window.go:124-130 | a cron period with a lower bound announces that bound, is closed until it, and opens there iff the bound is not past the upper one and falls into a declared slot |
| Schedule.AnnouncedAndClosed | controller/internal/window.go:124-130 | "0 2 * * *" for an hour from a noon on is announced to open at that noon, and is closed there |
| Schedule.FreezeEndsLate | controller/internal/window.go:83-89 | the absolute freeze that denies an instant keeps the window closed through the NextOpen it announces, inclusive; just after, it is open iff no other deny period is in force and the allow list permits |
| Schedule.DailyClosedForm | controller/internal/window.go:79-99 | in a fixed-offset zone "m h * * *" is open iff within its bounds and (now - start) mod 24h is below the duration |
| Schedule.WeeklyClosedForm | controller/internal/window.go:79-99 | "m h * * w" is open iff within its bounds and (now - start) mod one week is below the duration and below 48h |
| Schedule.FiresWithinAWeek | controller/internal/window.go:198-211 | with wildcard day-of-month and month the forward search succeeds within 10080 minutes |
| Schedule.OpenUntilNextClose | controller/internal/window.go:61-69 | an open window is open at every instant before its NextClose iff the allow list hands over at each end in between and no deny period is in force where one starts |
| Schedule.DeniedUntilNextOpen | controller/internal/window.go:45-54 | denial lasts until the NextOpen it announces iff the deny list hands over at each end in between |
| Compose.WindowSelectsAny | controller/internal/compose.go:114-128 | no selector selects all, a malformed one none, otherwise some label set must match |
| Compose.WhomItBlocks | controller/internal/compose.go:114-128 | a closed window without a selector blocks any fleet, one with an unreadable selector none, any other a fleet with a device it accepts |
| Compose.EvaluateWindowsFor | controller/internal/compose.go:62-112 | the order-sensitive loop computes the fold of the windows' rulings |
| Compose.OpenIsMeet | controller/internal/compose.go:86-110 | open iff every selecting window is open |
| Compose.ReleaseIsMaximum | controller/internal/compose.go:99-109 | NextOpen is the maximum over closed selecting windows that have one |
| Compose.OrderIrrelevant | controller/internal/compose.go:58-61 | verdict and NextOpen are invariant under permuting the windows |
| Compose.AddingNeverReopens | controller/internal/compose.go:58-61 | inserting a window anywhere never reopens a closed decision, and its release only moves later |
| Compose.BlockedUntilRelease | controller/internal/compose.go:98-109 | the composed decision is closed at every instant until its NextOpen, when a window that announces it is a freeze whose deny list hands over, or overlooks no firing |
| Compose.LimitIsTheLast | controller/internal/compose.go:86-94 | the limit of an open decision is that of the last selecting window |
| Compose.MostRestrictiveIffLast | controller/internal/compose.go:58-94 | the limit enforced is at least as strict as every selecting window's iff the last selecting window's is |
| Compose.LimitSafeInAnyOrder | controller/internal/compose.go:58-94 | the most restrictive limit is enforced in every order of the policies iff all selecting windows set the same limit, or none |
| Compose.LaterWindowLiftsLimit | controller/internal/compose.go:86-94 | two open windows give limit 50 or 5 depending on their order |
| Compose.BlockerIsTheLast | controller/internal/compose.go:98-109 | a closed decision names the last blocking window and gives its reason |
| Compose.DryRun | controller/cmd/plan/main.go:226-246 | the dry run's nested loops compute its own fold of the same rulings |
| Compose.DryRunAgrees | controller/cmd/plan/main.go:226-246 | the dry run has the controller's verdict, blocking window and reason; its release time is never later |
| Compose.DryRunNames | controller/cmd/plan/main.go:226-246 | the dry run names the last blocking window with its reason and its own release |
| Compose.ApplyWindow | controller/internal/compose.go:132-174 | the rollout's new status, permission and budget after a decision |
| Rollout.Observe | controller/internal/rollout_controller.go:254-304 | the loop computes the dispatched, healthy and failed lists of the per-device verdict |
| Rollout.ScanSteps | controller/internal/rollout_controller.go:425-438 | the scan finds the canary or the first step larger than the healthy count |
| Rollout.ChooseNext | controller/internal/rollout_controller.go:440-455 | the two loops pick, in order, the first eligible devices not yet done, up to the budget |
| Rollout.Cluster.DispatchAll | controller/internal/rollout_controller.go:184-193 | exactly the devices whose write succeeds get the payload, and they are the ones counted |
| Rollout.WriteMeans | controller/internal/rollout_controller.go:204-246 | a dispatched device's desired value is the payload; every other is unchanged |
| Rollout.BlockedRequeue | controller/internal/rollout_controller.go:101-110 | a blocked rollout wakes at the release if that is one to thirty minutes off, otherwise at the nearer of those bounds, and after a minute when none is known |
| Rollout.Cluster.Reconcile | controller/internal/rollout_controller.go:36-196 | the whole reconcile: stored status, desired firmware, devices written and requeue, with the status write possibly lost |
| Gates.FailedMeans | controller/internal/rollout_controller.go:254-304 | the failed list names exactly the eligible devices that are late or boot-looping, with that reason |
| Gates.DeadlineDecides | controller/internal/rollout_controller.go:288-301 | a written device that does not report in is absent from the failed list up to its deadline and in it at every later instant |
| Gates.BootsDecide | controller/internal/rollout_controller.go:270-285 | one that reports in is failed iff it booted more often than a positive threshold |
| Gates.StopLaw | controller/internal/rollout_controller.go:119-128 | past the gates a rollout pauses, writing nothing, iff at least the stated number of failures, and at least one, is among the eligible |
| Gates.PhaseOfProceed | controller/internal/rollout_controller.go:113-196 | the phase, counts, step label and requeue a reconcile leaves once it looked at the devices, for every combination of failures and health |
| Gates.PhaseBefore | controller/internal/rollout_controller.go:66-110 | the phase of one that did not get to look, and that it writes nothing |
| Gates.DoneIsDone | controller/internal/rollout_controller.go:43-46 | a rollout that is complete or rolled back is left alone |
| Gates.StatusShowsDecision | controller/internal/compose.go:132-150 | the status shows blocker, reason and release while closed, and no trace of them once open |
| Gates.BlockedNamesWindow | controller/internal/compose.go:98-146 | a rollout is blocked iff some selecting window is closed, and names the last such with its reason |
| Gates.StatusShowsPlan | controller/internal/rollout_controller.go:58-69 | the status shows the plan's counts and lists and keeps the first start time |
| Gates.RequeueMeans | controller/internal/rollout_controller.go:43-196 | a reconcile asks not to be called again iff the rollout is done; otherwise after 15 or 30 seconds or a minute as the phase says |
| Gates.LostOrStored | controller/internal/rollout_controller.go:184-196 | a lost status leaves the old one while the devices keep what was written to them |
| Gates.StepMeans | controller/internal/rollout_controller.go:425-438 | the step is the canary until it is healthy, then the first step larger than the healthy count, then everyone |
| Gates.BatchSize | controller/internal/rollout_controller.go:149-195 | exactly how many are written when no write fails: the least of the step's remainder, the medium's limit, the window's remainder and the devices not yet written; none unless every gate is passed |
| Gates.MediumLimits | controller/internal/rollout_controller.go:174-177 | one reconcile writes at most maxConcurrent devices |
| Gates.RunLimited | controller/internal/rollout_controller.go:174-195 | n reconciles make at most n times maxConcurrent writes |
| RolloutRuns.AllowanceExceedsHealthy | controller/internal/rollout_controller.go:425-438 | while some eligible device is not healthy the step allows more than the healthy count |
| RolloutRuns.ReachMonotone | controller/internal/rollout_controller.go:425-438 | the allowance is monotone in the healthy count for any, even unsorted, list of steps |
| RolloutRuns.PicksAreNear | controller/internal/rollout_controller.go:440-455 | a chosen device's position is below the budget plus the number already done |
| RolloutRuns.BlastRadius | controller/internal/rollout_controller.go:149-195 | over any run on a fixed eligible list, with stale reads and lost status writes, every device ever written lies within the allowance of the largest healthy count a reconcile of the run itself observed |
| RolloutRuns.TouchedDevices | controller/internal/rollout_controller.go:149-195 | hence at most that many distinct devices, and at most the canary until that many are healthy |
| RolloutRuns.DispatchIsLicensed | controller/internal/rollout_controller.go:43-195 | a written device had a live, unpaused rollout, every selecting window open, failures below tolerance, an empty desired value and the planner's licence |
| RolloutRuns.EveryWriteLicensed | controller/internal/rollout_controller.go:43-195 | every single write of every run, repeated ones included, was licensed by the reconcile that made it |
| RolloutRuns.CompleteIsSound | controller/internal/rollout_controller.go:139-146 | at the completing reconcile the healthy list is the eligible list, nothing failed, and each device reports the wanted hash without boot-looping |
| RolloutRuns.CompletesInTime | controller/internal/rollout_controller.go:139-195 | with fresh reads, successful writes, open unlimited windows and devices that report the wanted hash, the phase is Complete within one reconcile more than there are eligible devices |
| RolloutRuns.Drive | controller/internal/rollout_controller.go:36-196 | driving the in-place cluster through any list of reconciles leaves it in the state of the run the theorems are about |
| CanaryRuns.CapIsKept | controller/internal/rollout_controller.go:149-195 | before the canary is healthy, a reconcile with fresh reads keeps the written devices within the canary if they are still eligible, or fit under it with the eligible list; any gates, limits and failing writes |
| CanaryRuns.CapIsKeptExactly | controller/internal/rollout_controller.go:149-195 | and only then, when nothing but the canary limits what is written |
| CanaryRuns.CanaryHolds | controller/internal/rollout_controller.go:149-195 | over any run with fresh reads whose eligible lists satisfy that, no more devices than the canary are told to run anything until as many are healthy |
| CanaryRuns.CanaryWrites | controller/internal/rollout_controller.go:149-195 | and the run itself writes no more distinct devices than the canary |
| CanaryRuns.CanaryHoldsExactly | controller/internal/rollout_controller.go:149-195 | over a run limited by nothing else, the cap holds at every moment iff each eligible list satisfies that |
| CanaryRuns.CanaryNeedsContainment | controller/internal/rollout_controller.go:260-267 | two reconciles with a device falling asleep in between write two devices under a canary of one |
| BudgetRuns.ReconcileSpends | controller/internal/compose.go:148-173 | the counter is what was written since it restarted, restarts are more than an hour apart, and it never exceeds the limit |
| BudgetRuns.RestartIsReset | controller/internal/compose.go:152-158 | a reconcile records a new opening time iff it reaches an open decision and the reset test holds |
| BudgetRuns.TraceBeats | controller/internal/compose.go:148-173 | over a whole run the counter only counts on or restarts more than an hour after the last restart, within M, and is what the status holds |
| BudgetRuns.SentPerRestart | controller/internal/compose.go:152-172 | a run writes at most M devices per restart and M besides: without a restart, at most M |
| BudgetRuns.HourlyRadius | controller/internal/compose.go:152-172 | any H consecutive hours see at most (H + 1) * M writes |
| BudgetRuns.LimitDoubles | controller/internal/compose.go:152-172 | from an opening over an hour old with nothing spent, two reconciles at one instant write 2M devices of any online fleet of at least 2M |
| BudgetRuns.SpentIsHonoured | controller/internal/compose.go:152-172 | what was spent counts against the limit iff the counter was opened, and either no window is named or it was opened at most an hour ago |
| Contact.Sqrt | controller/internal/window.go:315-324 | the loop computes twenty Newton steps |
| Contact.RootIsUpperBound | controller/internal/window.go:315-324 | the result is never below the true root |
| Contact.RootIsUnconverged | controller/internal/window.go:315-324 | the result is at least x / 2^20 |
| Contact.RootError | controller/internal/window.go:315-324 | for x of at least 1 the result exceeds no bound on the true root by more than x / 2^20 |
| Contact.LearnContactWindow | controller/internal/window.go:231-295 | the loops compute interval, confidence and prediction from the positive gaps |
| Contact.IntervalMeans | controller/internal/window.go:231-257 | every contact is counted, and the interval is the mean of the positive gaps cut to whole nanoseconds, absent without any |
| Contact.ConfidenceNotOverstated | controller/internal/window.go:259-283 | High (Medium) implies at least 10 (5) positive gaps and a deviation below 0.15 (0.35) of the mean plus one nanosecond |
| Contact.RatingDecided | controller/internal/window.go:259-283 | from gap count, mean and variance alone: High (Medium) is given when deviation and x / 2^20 error fit below the limit together, withheld when either alone does not |
| Contact.PredictionIsFuture | controller/internal/window.go:285-293 | a prediction needs some confidence, is last contact plus mean, and lies in the future |
| Contact.GapsTelescope | controller/internal/window.go:242-255 | for strictly increasing contacts the gaps sum to last minus first |
| Contact.MinuteJitterIsNeverTrusted | controller/internal/window.go:259-283 | gaps all a minute or more off a mean of up to a day are never rated above Low |
| Contact.SteadyDeviceIsDoubted | controller/internal/window.go:259-283 | four hours, a minute more or less, observed for any ten gaps or more: a deviation of one minute, far below 0.15 of the mean, is rated Low |
| FleetViews.AreActionable | controller/internal/query.go:75-97 | actionable, or the first obstacle in the source's order |
| FleetViews.ObstacleMeans | controller/internal/query.go:75-97 | which obstacle is named, on the device's fields |
| FleetViews.EvaluateQuery | controller/internal/query.go:18-73 | matches, truncated list, truncation flag and every summary count are exact for the selected devices |
| FleetViews.RowsShow | controller/internal/query.go:18-73 | the rows are those of the devices picked, in order, up to the limit or a hundred; truncated iff there are more |
| FleetViews.SummaryAddsUp | controller/internal/query.go:49-58 | the seven summary keys account for every match |
| FleetViews.NegationSplits | controller/internal/query.go:99-102 | a predicate and its negation match complementary parts of the fleet |
| FleetViews.EligibleAreActionable | controller/internal/planner.go:39-117 | an OTA-only, size-0 rollout is eligible on exactly the devices a query calls actionable, in order |
| FleetViews.HeadlineCount | controller/internal/query.go:54-58 | the "actionable" count is the number of those devices |
| FleetViews.UnfilteredHeadline | controller/internal/query.go:18-73 | the headline of an unfiltered answer is the number of devices an OTA-only, size-0 rollout finds eligible |
| FleetViews.AssessDriftSince | controller/internal/drift.go:35-142 | the loop computes the drift report, including the oldest drift |
| FleetViews.DriftCounts | controller/internal/drift.go:50-131 | converged, drifted and unknown add up to the fleet, the list holds the last two, and "drifted and reachable" is always remediable |
| FleetViews.DriftIsCounted | controller/internal/drift.go:50-131 | drifted counts exactly the devices that knowably run something else than wanted, a grace period after it was set, and are not ignored sleepers; unknown those that do not say |
| FleetViews.DriftIsListed | controller/internal/drift.go:50-131 | the rows are exactly those of the drifted devices, and blank ones for those that do not say |
| FleetViews.RowMeans | controller/internal/drift.go:87-124 | a drifted device's row holds two different hashes, whether it can be corrected, and the one assessment its fields call for |
| FleetViews.ConvergedFleet | controller/internal/drift.go:71-74 | a fleet that all runs what is wanted has no drift and no rows |
| FleetViews.OldestDrift | controller/internal/drift.go:126-138 | the oldest drift is the largest time since a drifted device was heard, zero if none |
| FleetViews.DriftAgreesWithQuery | controller/internal/drift.go:101-124 | for a drifted device "drifted and reachable" coincides with actionable iff it is not a capable device that never reported |
| FleetViews.StringMatches | controller/internal/query.go:199-210 | a text passes exactly when it equals the wanted one, is in the list and is not in the excluded list, each only where given |
| FleetViews.AnyMatches | controller/internal/query.go:215-235 | a list passes exactly when none of its values is excluded and, where something is wanted, at least one value is wanted |
| FleetViews.MatchDevice | controller/internal/query.go:99-197 | the early-return filter agrees with the conjunction of its criteria, through any depth of Not |
| FleetViews.CriteriaMean | controller/internal/query.go:138-194 | each factual criterion alone, on the device's fields; an unknown battery is not low and a device never heard of not silent |
| FleetViews.TextCriteriaMean | controller/internal/query.go:104-136 | each textual criterion alone compares its own field |
| FleetViews.StateFilter | controller/internal/query.go:104-106 | a filter on a state's name finds the devices in that state |
| FleetViews.OperatorsMean | controller/internal/query.go:199-235 | equals, in and notIn one by one, on one value and on several |
| FleetViews.FilterIsConjunction | controller/internal/query.go:99-197 | a filter matches iff each of its criteria alone does |
| Ladder.CustomizedClient.MarkSeen | mapper/esphome/driver/transport.go:81-88 | the cache after an event is the cache of the log extended by it |
| Ladder.CustomizedClient.SelectTransport | mapper/esphome/driver/transport.go:98-156 | the two loops choose the first capable transport that is up, or refuse, or defer |
| Ladder.CacheDecidesUp | mapper/esphome/driver/transport.go:61-77 | up by the cache iff up by the whole log: non-decaying, never heard, or heard within the bound |
| Ladder.ChoiceRefinesLog | mapper/esphome/driver/transport.go:98-156 | over every log the choice is the first declared capable transport up by the log; refusal iff none is capable; deferral iff some is and none is up |
| Ladder.ChosenCanCarry | mapper/esphome/driver/transport.go:98-156 | a transport that is used is the device's own, of the kind asked for, meant for writes and large enough |
| Ladder.RefusedForGood | mapper/esphome/driver/transport.go:104-135 | refused iff each transport is of another kind, not for writes, not for firmware where that is asked for, or too small |
| Ladder.OtaIsAName | mapper/esphome/driver/transport.go:111-123 | requiring "ota" is refused for good iff no transport of that name can flash and take the size |
| Ladder.LegacyRelayed | mapper/esphome/driver/transport.go:28-49 | a device with no declared transports behind a gateway is refused for good exactly when the write exceeds 240 bytes or another transport than its radio is asked for |
| Ladder.LegacyRelay | mapper/esphome/driver/transport.go:28-49 | otherwise it goes through the device's gateway to its node, and waits iff the radio was heard and not for three expected intervals |
| Ladder.LegacyDirect | mapper/esphome/driver/transport.go:28-49 | one with an address of its own takes any write at any time on its own topic prefix, unless another transport is asked for |
| Framing.LineReader.Loop | firmware/my_components/line_reader/line_reader.cpp:17-58 | one drain of the UART feeds the available bytes to the framer and counts lines modulo 2^32 |
| Framing.ChunksDoNotMatter | firmware/my_components/line_reader/line_reader.cpp:17-47 | feeding in any chunks equals feeding the whole stream |
| Framing.DeliveredIsSound | firmware/my_components/line_reader/line_reader.cpp:17-47 | on every stream each delivered line has length 1..max, no CR or LF, and only received bytes |
| Framing.CRIsSkipped | firmware/my_components/line_reader/line_reader.cpp:25-27 | the line reader does not see carriage returns, wherever they stand |
| Framing.CRIsLineFeed | firmware/nrf9160/src/main.c:170-176 | to the modem's receive loop each is a line feed |
| Framing.CRLFEndsLine | firmware/my_components/line_reader/line_reader.cpp:17-47 | a plain line ended by CR LF is delivered as if ended by LF |
| Framing.LineDeliversTail | firmware/my_components/line_reader/line_reader.cpp:37-45 | a line of any length delivers its last (length mod (max + 1)) bytes |
| Framing.RoundTripExact | firmware/my_components/line_reader/line_reader.cpp:60-64 | a sent line arrives intact iff it is non-empty, free of CR, LF and NUL, and within the limit |
| Framing.LinesArriveInChunks | firmware/my_components/line_reader/line_reader.cpp:17-64 | a list of such lines, in any chunks, arrives exactly and in order, leaving an empty buffer |
| Serial.PubWireExact | firmware/nrf9160/src/main.c:62-70 | the device puts exactly the formatted line on the wire iff it fits its buffer |
| Serial.Nrf9160.Receive | firmware/nrf9160/src/main.c:162-187 | one polled byte drives the fixed buffer as the framer says and handles each completed line once |
| Serial.Nrf9160.Listen | firmware/nrf9160/src/main.c:162-187 | a run of bytes is framed, and its lines handled in order |
| Serial.Nrf9160.Handle | firmware/nrf9160/src/main.c:133-160 | a command line updates the recorded token, the verdicts and the echo; anything else but a "/command" topic is ignored |
| Serial.RepeatIsRecognised | firmware/nrf9160/src/main.c:108-111 | a token repeated at once is a duplicate iff it is shorter than 64 characters or already was one |
| Serial.ActsOncePerChange | firmware/nrf9160/src/main.c:86-129 | over any sequence of shorter tokens one passes the guard iff it differs from the one before |
| Serial.SubInverts | firmware/nrf9160/src/main.c:133-146 | "SUB suffix value" is parsed back iff the suffix has no space |
| Serial.PubInverts | controller/cmd/bridge/main.go:126-157 | "PUB suffix value" is parsed back iff the suffix has no space and the value is non-empty without trailing white space |
| Text.WhiteSpaceIs | controller/cmd/bridge/main.go:126 | what trimming removes: the 25 code points Unicode calls white space |
| Serial.LineFate | controller/cmd/bridge/main.go:126-152 | a trimmed line is ignored if blank or a comment, published iff it is PUB, a topic without a space, a space and the rest, and noise otherwise |
| Serial.WherePublished | controller/cmd/bridge/main.go:153-172 | an announcement goes to the enrollment topic, retained; a status to the device's own, retained; the rest there, not retained |
| Serial.Bridge.ReadLine | controller/cmd/bridge/main.go:126-172 | each line is published, dropped or ignored, on the right topic with the right retention, and counted as such |
| Serial.Bridge.ReadLoop | controller/cmd/bridge/main.go:121-186 | what the port delivers is cut into lines of at most 4095 bytes, published in order and counted, noise counted as dropped, followed by the retained offline notice |
| Serial.LongestLine | controller/cmd/bridge/main.go:122-125 | a line of up to 4095 bytes is found whole; at a longer one the scanner stops for good |
| Serial.Bridge.OnCommand | controller/cmd/bridge/main.go:189-201 | the line written for a command, and the down counter |
| Serial.BridgePrintsCommand | controller/cmd/bridge/main.go:190-191 | the device's own firmware command topic prints as the device's command line |
| Serial.Session | firmware/nrf9160/src/main.c:88-187 | any list of shippable firmware commands, in any chunks, is received whole, echoed in order, and judged by the guard run over the tokens |
| Serial.LongestCommand | firmware/nrf9160/src/main.c:164-182 | a firmware command fits the receive buffer iff its token is plain and at most 161 characters |
| Serial.EchoComesBack | controller/cmd/bridge/main.go:125-175 | one echo becomes its value on the state topic, not retained, iff the value is non-empty without trailing white space |
| Serial.EchoesComeBack | controller/cmd/bridge/main.go:121-175 | the whole wire of a session publishes every value in order iff each is non-empty without trailing white space |
| Serial.NewTokenVerdict | firmware/nrf9160/src/main.c:113-128 | a token that differs from the record is malformed without a bar, a no-op iff it names the running hash, and otherwise yields exactly the URL after the bar |
| Serial.UnknownCommandEchoed | firmware/nrf9160/src/main.c:149-158 | a command on an unknown property is echoed on the state topic of the same property iff the name is non-empty and the topic fits 127 bytes |
| Serial.UnknownCommandHandled | firmware/nrf9160/src/main.c:133-160 | and that is all such a command does |
| Vivarium.GatewayState.IsDown | controller/internal/vivarium/enclosure.go:60-78 | one query's answer and the gateway's new state |
| Vivarium.SameInstantSameAnswer | controller/internal/vivarium/enclosure.go:60-78 | queries at one instant always agree iff there are no outages or the period is positive and the length not negative |
| Vivarium.OutagesAreRegular | controller/internal/vivarium/enclosure.go:60-78 | for any durations, an outage first reported at t is reported through t plus its length; the next begins more than a period after the first good answer |
| Vivarium.CohortIsDeterministic | controller/internal/vivarium/enclosure.go:301-313 | a cohort's failure is certain iff there is no fractional fail chance (or nothing to excuse) |
| Vivarium.HashRoundTrip | controller/internal/vivarium/enclosure.go:290-294 | the dispatched payload gives back its hash iff the hash has no bar |
| Vivarium.CommandStartsFlash | controller/internal/vivarium/enclosure.go:290-317 | a command starts a flash iff the device lives and does not run the firmware already, whatever it reports |
| Vivarium.FlashShows | controller/internal/vivarium/enclosure.go:319-356 | what a flash leaves to be seen: hashes, boots, and a silence for good or for thirty minutes |
| Vivarium.BrickIsFinal | controller/internal/vivarium/enclosure.go:296-300 | a bricked device takes no command ever again |
| Vivarium.Organism.Command | controller/internal/vivarium/enclosure.go:277-317 | every payload is echoed; a flash starts unless bricked, malformed or already running it |
| Vivarium.Organism.Settle | controller/internal/vivarium/enclosure.go:319-356 | what each failure mode does to the device when its flash takes effect |
| ClosedLoop.CompleteMeansRunning | controller/internal/vivarium/enclosure.go:296-356 | at completion every eligible device that never lied has run the wanted firmware, however old the reads, and is running it where the read is its present report |
| ClosedLoop.LiarPasses | controller/internal/vivarium/enclosure.go:335-338 | one lying flash makes a device report the wanted hash while running the old one |
| ClosedLoop.BootLoopIsCaught | controller/internal/vivarium/enclosure.go:341-355 | a boot loop is caught iff the threshold is one to four boots, an honest flash by none |
| ClosedLoop.BootLoopStops | controller/internal/rollout_controller.go:119-128 | and then the rollout pauses, writing nothing, if one failure is enough |
| ClosedLoop.BrickIsCaught | controller/internal/rollout_controller.go:288-301 | a brick, or a device that ignores the write, is failed at exactly the instants past the deadline |
| ClosedLoop.PhysicalRadius | controller/internal/rollout_controller.go:149-195 | over every interleaving a device that ever ran anything new, rebooted, bricked or lied is within the allowance of the largest healthy count observed |
| ClosedLoop.LoopCompletes | controller/internal/vivarium/enclosure.go:277-356 | a fleet whose flashes take hold between reconciles, read as it reports, is Complete within one reconcile more than it has devices |
| Enrollment.AssessEnrollment | controller/internal/enrollment.go:29-100 | the two loops compute the rulings against the holders of each place |
| Enrollment.OneDevicePerPlace | controller/internal/enrollment.go:39-100 | no two distinct devices approved or left pending in one batch share a gateway and node id |
| Enrollment.FirstClaimantHolds | controller/internal/enrollment.go:42-54 | the first device to claim a place holds it |
| Enrollment.FirstClaimantNotFlagged | controller/internal/enrollment.go:47-54 | in a clash the first claimant is ruled as if alone |
| Enrollment.LaterClaimantFlagged | controller/internal/enrollment.go:42-100 | a later announcement of a claimed place is flagged iff it passes the earlier tests and is by another device |
| Enrollment.RulingMeans | controller/internal/enrollment.go:58-100 | approved, pending and taken, on what was announced: presentable, first to claim the place or claiming none, and auto-approval; and which rejection comes first |
| Enrollment.NoPlaceNoClash | controller/internal/enrollment.go:42-54 | a device without a gateway or with node zero is never turned away for another's place |
| Enrollment.EveryoneIsRuled | controller/internal/enrollment.go:56-100 | every announcement but those of enrolled devices gets a decision |

## Left out

- Kubernetes reads and writes, label selectors and object parsing: abstracted as maps, predicates and possibly stale reads; a failed list ends a reconcile before it changes anything and is not a step here.
- One instant per reconcile: the source reads the clock several times within one.
- Status conditions, generations and the human-readable detail and age strings.
- Seconds resolution of timestamps in stored statuses, which can bring two budget resets up to a second closer than an hour.
- 32- and 64-bit wrap-around other than in the battery test and the line counter: fleet sizes, percentages and clock values are unbounded integers.
- Cron text parsing: a period's cron is absent, unparsable or five numbers; -1 stands for a wildcard.
- IANA zone data: zones are arbitrary functions, and the closed forms use a fixed whole-minute offset.
- Contact.RatingDecided: between its two conditions, a band as wide as the smaller of deviation and error, the rating is that of the exact iterate and is not restated.
- Contact.ConfidenceNotOverstated: floating point is read as exact real arithmetic, and the deviation is taken about the code's own truncated mean.
- The order in which enrollment decisions are sorted for display.
- Encodings: a character is a byte to the framers and the scanner and a code point to the bridge's trimming; texts that are not valid UTF-8 are not modelled.
- Device log lines on the same wire, sensor values and the periodic announcements of the nRF9160.
- Battery ageing, jitter, packet loss and MQTT connections of the vivarium.
- RolloutRuns.CompletesInTime: needs a cooperative world, which ClosedLoop.LoopCompletes derives from devices that flash without failing; a device that sleeps, fails or is never written can hold a rollout for ever, by design.
- Templates, decommissioning, credential checks, liveness states and the command-line front ends: text substitution by the regexp library, filters over one field, tallies and console output.
