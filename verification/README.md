# Computational sprinting simulator — a Dafny model

The simulator runs a data center of task runners, one per processor, in
discrete epochs. A runner works through a queue of tasks. In an epoch it may
*sprint*, which finishes two units of work instead of one. Sprinting heats the
runner's server and draws power from its rack. A thermal or power violation
forces runners into a recovery period, during which they may not sprint.

Whether a runner sprints depends on a utility threshold. A coordinator
recomputes that threshold from the current task utilities, using a
Bellman-style mean-field solver. Tasks enter through a backlog, and a greedy
scheduler gives each task to the least-loaded runner.

The repository also holds an older prototype, which has its own task, runner
and coordinator.

Each part is modelled as immutable datatypes with pure step functions:

- `Tasks`, `Runners`, `Scheduling`, `DataCenters`, `Coordination` and
  `EpochSimulation` model the final simulator.
- `Bellman` models the solver.
- `ProtoTasks`, `ProtoRunners` and `ProtoCoordination` (file `prototype.dfy`)
  model the prototype.
- `Basics` holds shared arithmetic.

Random draws (Gaussian and uniform numbers, sprint utilities) are parameters
of the operations that use them. Doubles are exact reals.

Behaviours of the code worth knowing, all modelled as written:

- `DataCenter.runEpoch` does not tick the coordinator.
- The backlog drain schedules only the first ⌈n/2⌉ of n pending tasks per
  epoch, because the loop both advances an index and shrinks the list. The
  rest stay in the backlog (`DataCenters.Drain`).
- `computeNewTemperature` returns `max(1.0, …)` rather than a clamp to
  at most 1.0. So after every epoch each server is at temperature 1.0, and
  every runner goes through the thermal-failure handler
  (`DataCenters.EpochCoolsEveryRunner`). As a result, no runner is still
  sprinting when the rack power check runs
  (`DataCenters.PowerBranchUnreachable`).
- Temperature and hydrogel are tracked per server, not per runner.
- The rack sprint ceiling is 10.
- Recovery uses the max-merge rule: a failure raises the recovery counter to
  5 but never lowers it.
- The alternative driver `EpochSimulator` never calls a failure handler.
- In the solver, the converged exit clamps the sprint probability to [0, 1],
  but the exit after the last outer iteration does not. So a density whose
  mass above the threshold exceeds 1 is reported as a "probability" above 1
  (`Bellman.ExitsDifferAboveOne`, `Bellman.UnconvergedReportsTwo`).

## Model

| member | source | states |
|---|---|---|
| Tasks.Units | src/main/java/org/sprinting/model/Task.java:58-62 | an epoch finishes two units of work when sprinting, one otherwise |
| Tasks.NewTask | src/main/java/org/sprinting/model/Task.java:13-20 | a new task is pending, with remaining work equal to its duration, and keeps its id and utility |
| Tasks.ClampedNormal | src/main/java/org/sprinting/model/Task.java:69-72 | the sampled utility always lies in [0, 1]: the raw value when it is inside, 0 below, 1 above |
| Tasks.NewRandomTask | src/main/java/org/sprinting/model/Task.java:22-36 | a random task is pending with full remaining work and utility in [0, 1]; a coin below 0.7 draws from the low-utility mode (0.2), otherwise from the high one (0.8) |
| Tasks.ExecuteEpoch | src/main/java/org/sprinting/model/Task.java:54-67 | a completed task is unchanged; otherwise it is never pending again, its work drops by the epoch's units but not below zero, and it is completed exactly when no work remains |
| Tasks.RunProgress | src/main/java/org/sprinting/model/Task.java:57-62 | while work remains after k epochs, the remaining work has dropped by exactly k times the units and the task is running |
| Tasks.CompletesAfter | src/main/java/org/sprinting/model/Task.java:54-67 | a task with d units left completes after exactly ⌈d/u⌉ epochs, and not earlier |
| Tasks.NewTaskCompletion | src/main/java/org/sprinting/model/Task.java:54-67 | a new task of duration d needs d normal epochs or ⌈d/2⌉ sprinting epochs |
| Tasks.DurationIsRemaining | src/main/java/org/sprinting/model/Task.java:38-40 | the reported duration is the remaining work, so it differs from the initial duration after one epoch |
| Runners.NewRunner | src/main/java/org/sprinting/model/TaskRunner.java:22-30 | a new runner is valid, idle, not sprinting, free to sprint, and has the given id, threshold, server and rack |
| Runners.QueueWorkAppend | src/main/java/org/sprinting/model/TaskRunner.java:36-38 | the total work of two concatenated queues is the sum of their totals |
| Runners.AddTask | src/main/java/org/sprinting/model/TaskRunner.java:32-34 | the task is appended at the tail, the total work grows by its remaining work, and nothing else changes |
| Runners.EvaluateSprint | src/main/java/org/sprinting/model/TaskRunner.java:43-56 | a runner in recovery is unchanged; otherwise it sprints exactly when it already did or the drawn utility beats its threshold; only the flag can change |
| Runners.ExecuteEpoch | src/main/java/org/sprinting/model/TaskRunner.java:63-71 | an empty queue is unchanged; otherwise only the head task advances one epoch at the runner's speed, and it is dropped once completed |
| Runners.UpdateState | src/main/java/org/sprinting/model/TaskRunner.java:73-77 | a positive recovery counter drops by one, and nothing else changes |
| Runners.PowerFailure | src/main/java/org/sprinting/model/TaskRunner.java:79-82 | sprinting stops and the recovery counter becomes the larger of its old value and the power-recovery length |
| Runners.ThermalFailure | src/main/java/org/sprinting/model/TaskRunner.java:84-87 | sprinting stops and the recovery counter becomes the larger of its old value and the cooling length |
| Runners.FailureHandlersIdempotent | src/main/java/org/sprinting/model/TaskRunner.java:79-87 | applying a failure handler twice equals applying it once, and it never shortens a longer pending recovery |
| Runners.CanSprintGuardsSprinting | src/main/java/org/sprinting/model/TaskRunner.java:89-91 | a valid runner can sprint exactly when it is not recovering, and only such a runner changes in the sprint evaluation |
| Runners.SetThreshold | src/main/java/org/sprinting/coordinator/SprintCoordinator.java:74-76 | the threshold the coordinator pushes replaces the runner's own, and nothing else changes |
| Scheduling.FirstMin | src/main/java/org/sprinting/coordinator/GreedyScheduler.java:20-22 | the chosen index holds a minimum load, and every earlier runner is strictly busier, so ties go to the first |
| Scheduling.AssignTask | src/main/java/org/sprinting/coordinator/GreedyScheduler.java:19-26 | the first least-loaded runner gets the task appended, and every other runner is unchanged |
| Scheduling.AssignLoads | src/main/java/org/sprinting/coordinator/GreedyScheduler.java:19-26 | after an assignment only the chosen runner's load changes, rising by the task's remaining work |
| Scheduling.AssignTaskAddsWork | src/main/java/org/sprinting/coordinator/GreedyScheduler.java:19-26 | an assignment adds exactly the task's work to the total load |
| Scheduling.AssignAllAddsWork | src/main/java/org/sprinting/coordinator/GreedyScheduler.java:19-26 | assigning a batch adds exactly the batch's work to the total load |
| Scheduling.AssignKeepsBalance | src/main/java/org/sprinting/coordinator/GreedyScheduler.java:20-24 | if loads differ by at most m and the task's work is at most m, they still differ by at most m afterwards |
| Scheduling.AssignAllKeepsBalance | src/main/java/org/sprinting/coordinator/GreedyScheduler.java:20-24 | the balance bound survives any batch whose task efforts are all within it |
| Scheduling.FairnessFromEqualLoads | src/main/java/org/sprinting/coordinator/GreedyScheduler.java:20-24 | from equal loads, greedy scheduling keeps every two runners within the largest task effort of each other |
| Scheduling.AssignAllLoads | src/main/java/org/sprinting/coordinator/GreedyScheduler.java:19-26 | the loads after a batch equal the least-loaded-first rule applied to the bare load vector and the task efforts |
| Scheduling.GreedyLoadsScenario | src/main/java/org/sprinting/coordinator/GreedyScheduler.java:20-24 | efforts 3, 5, 2, 4, 1 on three empty runners give loads 4, 5, 6 |
| Scheduling.GreedyScenario | src/main/java/org/sprinting/coordinator/GreedyScheduler.java:19-26 | the same scenario, on runners and tasks |
| DataCenters.ServerIdsAreContiguous | src/main/java/org/sprinting/model/DataCenter.java:32-39 | server ids derived from processor positions cover exactly 0 to the server count, each used by some runner |
| DataCenters.Create | src/main/java/org/sprinting/model/DataCenter.java:26-40 | one fresh runner per processor, placed by integer division, with cold servers, empty hydrogel and the initial tasks as backlog |
| DataCenters.Drain | src/main/java/org/sprinting/model/DataCenter.java:45-47 | the drain hands the first ⌈n/2⌉ backlog tasks, in order, to the greedy scheduler and leaves the last ⌊n/2⌋ in the backlog |
| DataCenters.DrainAddsWork | src/main/java/org/sprinting/model/DataCenter.java:45-47 | draining raises the runners' total load by exactly the work of the scheduled first half of the backlog |
| DataCenters.DrainLoop | src/main/java/org/sprinting/model/DataCenter.java:45-47 | the index-and-remove loop assigns exactly the first half (rounded up) of the backlog in order, leaves the rest, and so computes `Drain` |
| DataCenters.NewTemperature | src/main/java/org/sprinting/model/DataCenter.java:121-126 | the new temperature is at least 1.0, and either 1.0 or the heated-and-cooled value |
| DataCenters.NewHydrogel | src/main/java/org/sprinting/model/DataCenter.java:128-133 | the hydrogel state stays in [0, 1] and equals the saturated-and-recovered value when that is in range, 0 when it is below and 1 when it is above |
| DataCenters.Sprinters | src/main/java/org/sprinting/model/DataCenter.java:53-59 | a group's sprinter count is at most the runner count, and positive exactly when the group has a sprinting member |
| DataCenters.SprintersCountsIndices | src/main/java/org/sprinting/model/DataCenter.java:53-59 | the count equals the number of positions holding a sprinting runner of the group |
| DataCenters.SprintersMonotone | src/main/java/org/sprinting/model/DataCenter.java:91-96 | runners that can only stop sprinting, in unchanged groups, never raise a group's count |
| DataCenters.UpdateServers | src/main/java/org/sprinting/model/DataCenter.java:62-77 | every server's temperature becomes 1.0, and its hydrogel is updated from that server's own sprinter count and stays in [0, 1] |
| DataCenters.ThermalCheck | src/main/java/org/sprinting/model/DataCenter.java:79-88 | runners on a server at temperature 1.0 or more get the thermal-failure handler; the others are unchanged |
| DataCenters.PowerCheck | src/main/java/org/sprinting/model/DataCenter.java:98-111 | every runner of a rack with more than 10 sprinters, sprinting or not, gets the power-failure handler; the others are unchanged |
| DataCenters.PowerCheckRespectsCeiling | src/main/java/org/sprinting/model/DataCenter.java:98-111 | after the power check no rack has more than 10 sprinters, and a rack that had more has none |
| DataCenters.EvaluateAll | src/main/java/org/sprinting/model/DataCenter.java:49-51 | each runner evaluates its sprint decision with its own draw |
| DataCenters.WorkAll | src/main/java/org/sprinting/model/DataCenter.java:113-118 | each runner executes one epoch and then ages its recovery |
| DataCenters.RunEpoch | src/main/java/org/sprinting/model/DataCenter.java:42-119 | an epoch keeps the data center well formed, leaves the last ⌊n/2⌋ backlog tasks pending, sets every server to 1.0, and gives each server the hydrogel level computed from its old level and the number of its runners that decided to sprint this epoch (always in [0, 1]) |
| DataCenters.HotServersStopSprinting | src/main/java/org/sprinting/model/DataCenter.java:79-88 | when every server is at 1.0, every runner goes through the thermal-failure handler and stops sprinting |
| DataCenters.EpochRunners | src/main/java/org/sprinting/model/DataCenter.java:42-119 | after the thermal check no runner sprints, no rack has a sprinter, the power check changes nothing, and the epoch's runners are the cooled runners after one work step |
| DataCenters.EpochCoolsEveryRunner | src/main/java/org/sprinting/model/DataCenter.java:79-118 | after an epoch no runner is sprinting, each ends with a recovery counter of at least the cooling length minus one, and its id, placement and threshold are kept |
| DataCenters.PowerBranchUnreachable | src/main/java/org/sprinting/model/DataCenter.java:90-111 | the rack power check never finds a sprinter, so it never forces a power recovery |
| DataCenters.EpochAdvancesHeadByOne | src/main/java/org/sprinting/model/DataCenter.java:113-118 | every runner works at normal speed in an epoch: its queue is what one unsprinted epoch makes of it, so its queued work drops by exactly one when its head task has work left |
| DataCenters.AddTask | src/main/java/org/sprinting/model/DataCenter.java:143-147 | a present task is appended to the backlog, an absent one changes nothing, and nothing else changes |
| DataCenters.AddTasks | src/main/java/org/sprinting/model/DataCenter.java:149-153 | a present list is appended to the backlog in order, an absent one changes nothing |
| DataCenters.AddTasksIsRepeatedAddTask | src/main/java/org/sprinting/model/DataCenter.java:143-153 | adding a list at once equals adding its tasks one by one |
| Coordination.New | src/main/java/org/sprinting/coordinator/SprintCoordinator.java:9-19 | a new coordinator has a zero epoch counter, the initial threshold and default solver parameters, and is valid for a positive interval |
| Coordination.Positives | src/main/java/org/sprinting/coordinator/SprintCoordinator.java:36-39 | every positive reading is kept as often as it occurs, no other reading is kept, and none are left exactly when no reading is positive |
| Coordination.PositivesAppend | src/main/java/org/sprinting/coordinator/SprintCoordinator.java:36-39 | the filter keeps order: filtering a concatenation concatenates the filtered parts |
| Coordination.PositivesKeepsPositive | src/main/java/org/sprinting/coordinator/SprintCoordinator.java:36-39 | filtering all-positive readings keeps them all, in order |
| Coordination.MeanPositive | src/main/java/org/sprinting/coordinator/SprintCoordinator.java:43-45 | the mean of positive readings is positive |
| Coordination.FlooredStd | src/main/java/org/sprinting/coordinator/SprintCoordinator.java:47-48 | the standard deviation passed on is the raw one, floored at 0.01 |
| Coordination.RackParams | src/main/java/org/sprinting/coordinator/SprintCoordinator.java:31-34 | the solver sees a rack of 10 runners with trip knees at 2 and 6, and the other parameters are untouched |
| Coordination.DomainParams | src/main/java/org/sprinting/coordinator/SprintCoordinator.java:50-51 | the utility domain becomes [0, 1], and the other parameters are untouched |
| Coordination.FinalThreshold | src/main/java/org/sprinting/coordinator/SprintCoordinator.java:65-69 | the normalised threshold is clamped to [0.4, 0.6] |
| Coordination.Broadcast | src/main/java/org/sprinting/coordinator/SprintCoordinator.java:73-76 | every runner gets the same threshold, and nothing else changes |
| Coordination.BroadcastOverrides | src/main/java/org/sprinting/coordinator/SprintCoordinator.java:73-76 | a later broadcast overrides an earlier one, and every runner holds the broadcast value |
| Coordination.Recompute | src/main/java/org/sprinting/coordinator/SprintCoordinator.java:29-77 | without positive readings only the rack parameters change; otherwise all runners get the clamped, normalised solver threshold computed from the mean and floored deviation |
| Coordination.NextCount | src/main/java/org/sprinting/coordinator/SprintCoordinator.java:21-27 | the counter advances by one and resets to zero when it reaches the interval |
| Coordination.OnEpoch | src/main/java/org/sprinting/coordinator/SprintCoordinator.java:21-27 | an epoch recomputes exactly when the counter reaches the interval, otherwise changes only the counter, and keeps the coordinator valid |
| Coordination.ValidReadings | src/main/java/org/sprinting/coordinator/SprintCoordinator.java:79-85 | a valid coordinator reports between 1 and the interval epochs to go, and a threshold that is either the initial one or inside [0.4, 0.6] |
| Coordination.CountAfterIsMod | src/main/java/org/sprinting/coordinator/SprintCoordinator.java:21-27 | after k epochs the counter is k modulo the interval |
| Coordination.RecomputesEveryInterval | src/main/java/org/sprinting/coordinator/SprintCoordinator.java:21-27 | the k-th epoch recomputes exactly when k is a multiple of the interval |
| Coordination.IntervalOneRecomputesEveryEpoch | src/main/java/org/sprinting/coordinator/SprintCoordinator.java:21-27 | with interval 1, every epoch recomputes |
| EpochSimulation.RunnerStep | src/main/java/org/sprinting/coordinator/EpochSimulator.java:24-26 | a runner's turn keeps its identity, placement, threshold and validity, and a sprinting runner keeps sprinting |
| EpochSimulation.StepRecovery | src/main/java/org/sprinting/coordinator/EpochSimulator.java:24-26 | without failure handling, a positive recovery counter drops by exactly one per turn and zero stays zero |
| EpochSimulation.SprinterHeadLosesTwo | src/main/java/org/sprinting/coordinator/EpochSimulator.java:24-25 | a sprinting runner's head task with more than two units left loses exactly two, and the rest of the queue is kept |
| EpochSimulation.RunEpochInOrder | src/main/java/org/sprinting/coordinator/EpochSimulator.java:20-30 | the in-order loop gives each runner exactly its own turn with its own draw |
| EpochSimulation.InOrderIsMap | src/main/java/org/sprinting/coordinator/EpochSimulator.java:23-29 | the in-order loop computes the same list as the simultaneous map over runners |
| EpochSimulation.SprintingIsSticky | src/main/java/org/sprinting/coordinator/EpochSimulator.java:24-26 | under this driver a sprinting runner sprints in every later epoch |
| EpochSimulation.RecoveryCountsDown | src/main/java/org/sprinting/coordinator/EpochSimulator.java:24-26 | after k epochs the recovery counter is max(c − k, 0), and the runner stays valid |
| Bellman.DefaultsWellPosed | src/main/java/org/sprinting/model/SprintingBellmanDemo.java:26-37 | the default parameters give a usable grid, probabilities and discount in range, and ordered trip knees |
| Bellman.TripCurve | src/main/java/org/sprinting/model/SprintingBellmanDemo.java:212-217 | the trip probability is in [0, 1], 0 below the lower knee and 1 above the upper one |
| Bellman.TripCurveLinearPiece | src/main/java/org/sprinting/model/SprintingBellmanDemo.java:212-217 | between the knees the trip probability rises linearly from the lower knee |
| Bellman.TripCurveMonotone | src/main/java/org/sprinting/model/SprintingBellmanDemo.java:212-217 | more expected sprinters never lower the trip probability |
| Bellman.TripCurveKnees | src/main/java/org/sprinting/model/SprintingBellmanDemo.java:212-217 | the curve is 0 at the lower knee, 1 at the upper one, and 1/2 halfway |
| Bellman.DuSpansDomain | src/main/java/org/sprinting/model/SprintingBellmanDemo.java:111-116 | the grid step is positive and gridU − 1 steps span the utility domain exactly |
| Bellman.GridShape | src/main/java/org/sprinting/model/SprintingBellmanDemo.java:111-116 | the grid starts at uMin, ends at uMax and is strictly increasing |
| Bellman.WeightTotalClosedForm | src/main/java/org/sprinting/model/SprintingBellmanDemo.java:202-210 | the trapezoid weights sum to the domain's width, with half weight at both ends |
| Bellman.IntegrateAtLeast | src/main/java/org/sprinting/model/SprintingBellmanDemo.java:202-210 | an integrand at least lo on the grid integrates to at least lo times the width |
| Bellman.IntegrateAtMost | src/main/java/org/sprinting/model/SprintingBellmanDemo.java:202-210 | an integrand at most hi on the grid integrates to at most hi times the width |
| Bellman.IntegrateConstant | src/main/java/org/sprinting/model/SprintingBellmanDemo.java:202-210 | a constant integrand integrates exactly to the constant times the width |
| Bellman.IntegrateMonotone | src/main/java/org/sprinting/model/SprintingBellmanDemo.java:202-210 | a pointwise smaller integrand has a smaller integral |
| Bellman.RoundHalfUp | src/main/java/org/sprinting/model/SprintingBellmanDemo.java:219-224 | the rounded value is the integer nearest x, with halves rounding up |
| Bellman.JavaRound | src/main/java/org/sprinting/model/SprintingBellmanDemo.java:219-224 | rounding saturates at the bounds of a 64-bit long |
| Bellman.ToInt | src/main/java/org/sprinting/model/SprintingBellmanDemo.java:219-224 | the cast to int keeps in-range values and otherwise wraps modulo 2^32 into the int range |
| Bellman.Idx | src/main/java/org/sprinting/model/SprintingBellmanDemo.java:219-224 | the index is always on the grid, and is the rounded position clamped to the ends when that fits an int |
| Bellman.IdxOfGridPoint | src/main/java/org/sprinting/model/SprintingBellmanDemo.java:219-224 | looking up a grid point gives back its own index |
| Bellman.IdxInDomain | src/main/java/org/sprinting/model/SprintingBellmanDemo.java:219-224 | a utility inside the domain rounds to a grid index without clamping |
| Bellman.IdxNearest | src/main/java/org/sprinting/model/SprintingBellmanDemo.java:219-224 | a utility inside the domain maps to a grid point at most half a step away |
| Bellman.IdxWrapsBeyondIntRange | src/main/java/org/sprinting/model/SprintingBellmanDemo.java:219-224 | a utility far outside the domain wraps through the int cast to index 0, not the top end |
| Bellman.SurvivalDiscount | src/main/java/org/sprinting/model/SprintingBellmanDemo.java:129-133 | the discount times the probability of not tripping stays in [0, 1] |
| Bellman.StayCooling | src/main/java/org/sprinting/model/SprintingBellmanDemo.java:129-133 | the discounted chance of remaining in cooling is below 1, so the closed form is defined |
| Bellman.RecoveryValueFixedPoint | src/main/java/org/sprinting/model/SprintingBellmanDemo.java:129-131 | the closed-form recovery value solves its one-step Bellman equation |
| Bellman.CoolingValueFixedPoint | src/main/java/org/sprinting/model/SprintingBellmanDemo.java:132-133 | the closed-form cooling value solves its one-step Bellman equation |
| Bellman.SprintIffAboveThreshold | src/main/java/org/sprinting/model/SprintingBellmanDemo.java:136-141 | sprinting is worth at least waiting exactly when the utility is at least the threshold, so the pointwise maximum is chosen by the threshold |
| Bellman.BestResponseAt | src/main/java/org/sprinting/model/SprintingBellmanDemo.java:136-141 | each grid point stores the better of sprinting and waiting, which is the sprint value exactly above the threshold |
| Bellman.InitialPtrip | src/main/java/org/sprinting/model/SprintingBellmanDemo.java:118-119 | the starting trip probability is the configured one clamped to [0, 1] |
| Bellman.SprintMassAntitone | src/main/java/org/sprinting/model/SprintingBellmanDemo.java:153-155 | raising the threshold never increases the sprinting mass, which stays non-negative |
| Bellman.SprintMassNonNegative | src/main/java/org/sprinting/model/SprintingBellmanDemo.java:153-155 | a non-negative density gives a non-negative sprinting mass |
| Bellman.ActiveFraction | src/main/java/org/sprinting/model/SprintingBellmanDemo.java:157-158 | the active fraction is a proportion in [0, 1] |
| Bellman.ActiveFractionBalance | src/main/java/org/sprinting/model/SprintingBellmanDemo.java:157-158 | the active fraction solves the flow balance between active and cooling, and is 1 when nobody sprints |
| Bellman.ExpectedSprinters | src/main/java/org/sprinting/model/SprintingBellmanDemo.java:160 | the expected number of sprinters is the sprint probability times the active fraction times the rack size, and so lies between 0 and the rack size |
| Bellman.ConvergedResult | src/main/java/org/sprinting/model/SprintingBellmanDemo.java:146-176 | the converged exit reports the closed-form values, the threshold, a clamped sprint probability, the active fraction, sprinters within the rack, and the trip probability of that count |
| Bellman.UnconvergedResult | src/main/java/org/sprinting/model/SprintingBellmanDemo.java:185-198 | the final exit keeps the last trip probability and value, and reports the unclamped sprinting mass with its active fraction and sprinter count |
| Bellman.ExitsDifferAboveOne | src/main/java/org/sprinting/model/SprintingBellmanDemo.java:146-198 | when the mass above the threshold exceeds 1, the final exit reports a probability above 1 but the converged exit reports 1 |
| Bellman.UnconvergedReportsTwo | src/main/java/org/sprinting/model/SprintingBellmanDemo.java:185-198 | a concrete density of mass 2 makes the final exit report a sprint probability of 2 |
| Bellman.ConvergedReportsOne | src/main/java/org/sprinting/model/SprintingBellmanDemo.java:146-176 | the same density makes the converged exit report 1 |
| Basics.Clamp | src/main/java/org/sprinting/model/SprintingBellmanDemo.java:226-228 | the clamped value lies in the range, equals x inside it, and is the nearer bound outside |
| Basics.ClampIdempotent | src/main/java/org/sprinting/model/SprintingBellmanDemo.java:226-228 | clamping twice equals clamping once |
| Basics.ClampMonotone | src/main/java/org/sprinting/model/SprintingBellmanDemo.java:226-228 | clamping preserves order |
| ProtoTasks.New | src/main/java/org/sprinting/Task.java:13-18 | a new prototype task is pending with all its units remaining, and is valid exactly when that count is non-negative |
| ProtoTasks.ExecuteEpoch | src/main/java/org/sprinting/Task.java:35-50 | a completed task is unchanged; otherwise one unit is done if any remain, and the task completes when none remain |
| ProtoTasks.RunProgress | src/main/java/org/sprinting/Task.java:41-49 | while units remain after k calls, exactly k units are done and the task is not completed |
| ProtoTasks.CompletesAfter | src/main/java/org/sprinting/Task.java:35-50 | a valid task completes on exactly the predicted call, with no units left, and not earlier |
| ProtoTasks.NewTaskCompletion | src/main/java/org/sprinting/Task.java:35-50 | a new task of n ≥ 1 units completes on call n; a task of 0 units completes on the first call |
| ProtoTasks.NegativeNeverCompletes | src/main/java/org/sprinting/Task.java:41-49 | a task with negative units never completes and its count never changes |
| ProtoRunners.New | src/main/java/org/sprinting/TaskRunner.java:14-18 | a new runner has an empty queue and zero recorded work |
| ProtoRunners.AddTask | src/main/java/org/sprinting/TaskRunner.java:28-31 | the task is appended and the recorded work grows by its units, keeping the record consistent with the queue |
| ProtoRunners.AddAllTotal | src/main/java/org/sprinting/TaskRunner.java:28-31 | adding a list appends it and adds its total work to the record |
| ProtoRunners.RunToCompletion | src/main/java/org/sprinting/TaskRunner.java:37-39 | the inner loop calls the task until it completes, exactly as many times as it has units |
| ProtoRunners.Drained | src/main/java/org/sprinting/TaskRunner.java:33-42 | a drained runner has an empty queue, but its recorded total is not reset |
| ProtoRunners.RunAllTasks | src/main/java/org/sprinting/TaskRunner.java:33-42 | running all tasks finishes each queued task in order and leaves the drained runner |
| ProtoRunners.DrainedIsStale | src/main/java/org/sprinting/TaskRunner.java:24-42 | after draining, the recorded total still counts the finished work, so it disagrees with the empty queue |
| ProtoRunners.TotalCountsEverAdded | src/main/java/org/sprinting/TaskRunner.java:24-42 | the recorded total counts all work ever added, across drains |
| ProtoCoordination.RunnerIdInjective | src/main/java/org/sprinting/Coordinator.java:17-19 | distinct indices give distinct "MP-" runner ids |
| ProtoCoordination.New | src/main/java/org/sprinting/Coordinator.java:13-20 | one fresh runner per requested index, named "MP-" and the index, and no pending tasks |
| ProtoCoordination.NewRunnerIdsDistinct | src/main/java/org/sprinting/Coordinator.java:13-20 | the created runners have pairwise distinct ids |
| ProtoCoordination.SubmitTask | src/main/java/org/sprinting/Coordinator.java:25-27 | a submitted task is appended to the pending list, and the runners are unchanged |
| ProtoCoordination.Assign | src/main/java/org/sprinting/Coordinator.java:36-38 | the first runner with the least recorded work gets the task, and the others are unchanged |
| ProtoCoordination.AssignAddsTask | src/main/java/org/sprinting/Coordinator.java:36-38 | an assignment adds the task's units to the total recorded work and one task to the queues |
| ProtoCoordination.Schedule | src/main/java/org/sprinting/Coordinator.java:29-41 | scheduling fails exactly when tasks are pending but there are no runners; otherwise it empties the pending list, keeps the runners' ids, and leaves the cached totals exactly where the greedy least-loaded rule puts the pending units taken in FIFO order |
| ProtoCoordination.ScheduleIsFold | src/main/java/org/sprinting/Coordinator.java:29-41 | scheduling equals assigning each pending task in FIFO order, one at a time, to the first runner with the least cached total at that moment |
| ProtoCoordination.AssignEach | src/main/java/org/sprinting/Coordinator.java:33-39 | one assignment per task, in order, moves the cached totals exactly as the greedy rule on bare numbers does |
| ProtoCoordination.AssignIsGreedyStep | src/main/java/org/sprinting/Coordinator.java:36-38 | one assignment adds the task's units to the first least cached total, and changes no other total |
| ProtoCoordination.ScheduleAddsWork | src/main/java/org/sprinting/Coordinator.java:32-41 | scheduling moves every pending task's units and count onto the runners |
| ProtoCoordination.ExecuteAll | src/main/java/org/sprinting/Coordinator.java:46-52 | every runner is drained, and pending tasks are untouched |

## Left out

- The graphical dashboard, the command-line entry points, banners and all
  console logging are not modelled. They only read the core's state.
- Randomness (`Random`, `Math.random`, Gaussian draws) is not modelled as a
  generator. Each draw is a parameter of the operation that consumes it.
- Doubles are exact reals. Floating-point rounding is not modelled, so
  equalities such as "temperature is 1.0" hold exactly in the model.
- Java's 32-bit `int` overflow is not modelled for task units, counters, ids
  and loads; these are unbounded integers. The one place where narrowing
  matters, the solver's grid index, is modelled explicitly
  (`Bellman.ToInt`, `Bellman.JavaRound`).
- `null` arguments of `addTask`/`addTasks` are modelled as `Option` values.
- `DataCenters.Create` requires positive partition sizes whenever there are
  runners. A zero size divides by zero in the source. Java's division
  truncates, so a negative `procsPerServer` puts the first
  `|procsPerServer|` runners on server 0; once `numRunners` exceeds
  `|procsPerServer|` it gives negative server ids, which index the hydrogel
  array out of bounds during an epoch. Two cases the source accepts are
  excluded because no caller uses them: a negative `procsPerServer` with at
  most `|procsPerServer|` runners, and a negative `serversPerRack` (rack ids
  are only compared).
- Object identity is not modelled. The source's data center keeps the
  caller's task list, and tasks are shared mutable objects, while the model
  copies values. No caller relies on the sharing.
- The greedy scheduler requires at least one runner (`Scheduling.AssignTask`,
  `Scheduling.AssignAll`, `DataCenters.RunEpoch`). The source throws on an
  empty runner list. The prototype's `schedule` models that failure as
  `None`.
- The order of the source's hash-map iteration over servers and racks is not
  modelled. Each server and rack touches only its own runners, so the result
  does not depend on it.
- The solver's value-iteration loops are not modelled: their convergence
  tests, the iteration of the integral-level value V(A), and the
  trip-probability fixed point. The model takes V(A) and the trip
  probability as inputs, and covers the pointwise best response and the
  fields each exit fills in.
- The utility densities (narrow and bimodal Gaussians, `normalize`) are not
  modelled, because they need `exp` and `sqrt`. A density is a function
  parameter.
- The coordinator's variance and square root are not modelled. The raw
  standard deviation is a parameter, and only its floor is modelled.
- The solver is not modelled inside `Coordination.Recompute` and
  `Coordination.OnEpoch`. It is a function parameter, whose result is
  normalised and clamped as in the source.
- `getCurrentUtility` and `setSprintThreshold`, which the coordinator calls,
  do not exist in `TaskRunner`. Utilities are passed positionally, and
  `Runners.SetThreshold` sets the field.
- The solver's parameters are restricted to `Bellman.GridOk` and
  `Bellman.WellPosed`: at least two grid points, a non-empty domain, and
  probabilities and discount in range. These keep the grid step positive
  and the closed-form denominators positive. Outside them the source does
  not fail: double division yields infinities or NaN (one grid point, or a
  discount and recovery probability of 1), the grid runs backwards
  (uMin > uMax), or the closed forms lose their meaning (negative
  probabilities). None of that behaviour is modelled.
- `ProtoRunners.RunToCompletion` and `ProtoRunners.RunAllTasks` require tasks
  with non-negative units. On a negative count the source loops forever
  (`ProtoTasks.NegativeNeverCompletes`).
- `numTasksCreated`, `RunnerState`, `toString` and plain getters are not
  modelled; they carry no behaviour.
- Per-runner chip temperature and hydrogel accessors are not modelled. The
  code keeps these per server, and that is what is modelled.
