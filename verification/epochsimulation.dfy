/** The alternative epoch driver (coordinator/EpochSimulator.java): runners
    are visited in list order, and each evaluates its sprint decision,
    executes one epoch of work and ages its recovery before the next one
    starts. No failure handler is ever called. `utilities[i]` is the draw
    runner i makes in `evaluateSprint`. */
module EpochSimulation {
  import opened Basics
  import Tasks
  import Runners

  /** One runner's turn. */
  function RunnerStep(r: Runners.Runner, utility: real): (r': Runners.Runner)
    ensures r'.id == r.id && r'.serverId == r.serverId && r'.rackId == r.rackId
    ensures r'.threshold == r.threshold
    ensures Runners.Valid(r) ==> Runners.Valid(r')
    ensures r.sprinting ==> r'.sprinting
  {
    Runners.UpdateState(Runners.ExecuteEpoch(Runners.EvaluateSprint(r, utility)))
  }

  /** Without failures the recovery counter only counts down: a positive
      counter drops by exactly one and 0 stays 0. */
  lemma StepRecovery(r: Runners.Runner, utility: real)
    requires Runners.Valid(r)
    ensures r.recovery > 0 ==> RunnerStep(r, utility).recovery == r.recovery - 1
    ensures r.recovery == 0 ==> RunnerStep(r, utility).recovery == 0
    ensures r.recovery > 0 ==> RunnerStep(r, utility).sprinting == r.sprinting
  {
  }

  /** A sprinting runner works at sprint speed: a head task with more than
      two units left loses exactly two, and the rest of the queue is kept. */
  lemma SprinterHeadLosesTwo(r: Runners.Runner, utility: real)
    requires r.sprinting && |r.queue| > 0
    requires r.queue[0].state != Tasks.Completed && r.queue[0].remaining > 2
    ensures var r' := RunnerStep(r, utility);
            && |r'.queue| == |r.queue|
            && r'.queue[0].remaining == r.queue[0].remaining - 2
            && r'.queue[1..] == r.queue[1..]
  {
    var e := Runners.EvaluateSprint(r, utility);
    assert e.sprinting && e.queue == r.queue;
    var h := Tasks.ExecuteEpoch(r.queue[0], true);
    assert h.state != Tasks.Completed;
    assert Runners.ExecuteEpoch(e).queue == [h] + r.queue[1..];
  }

  /** The whole list after one epoch. */
  function RunEpoch(rs: seq<Runners.Runner>, utilities: seq<real>): (rs': seq<Runners.Runner>)
    requires |utilities| == |rs|
    ensures |rs'| == |rs|
  {
    seq(|rs|, i requires 0 <= i < |rs| => RunnerStep(rs[i], utilities[i]))
  }

  /** The list-order loop of `runEpoch`: each runner's step reads and
      writes only that runner. */
  method RunEpochInOrder(rs: seq<Runners.Runner>, utilities: seq<real>) returns (out: seq<Runners.Runner>)
    requires |utilities| == |rs|
    ensures |out| == |rs|
    ensures forall i :: 0 <= i < |rs| ==> out[i] == RunnerStep(rs[i], utilities[i])
  {
    out := rs;
    var i := 0;
    while i < |out|
      invariant 0 <= i <= |out| == |rs|
      invariant forall j :: 0 <= j < i ==> out[j] == RunnerStep(rs[j], utilities[j])
      invariant forall j :: i <= j < |out| ==> out[j] == rs[j]
    {
      out := out[i := RunnerStep(out[i], utilities[i])];
      i := i + 1;
    }
  }

  /** The in-order loop computes the same list as the all-at-once map. */
  lemma InOrderIsMap(rs: seq<Runners.Runner>, utilities: seq<real>, out: seq<Runners.Runner>)
    requires |utilities| == |rs| && |out| == |rs|
    requires forall i :: 0 <= i < |rs| ==> out[i] == RunnerStep(rs[i], utilities[i])
    ensures out == RunEpoch(rs, utilities)
  {
  }

  /** One runner over consecutive epochs with draws `us`. */
  function Steps(r: Runners.Runner, us: seq<real>): Runners.Runner
    decreases |us|
  {
    if |us| == 0 then r else Steps(RunnerStep(r, us[0]), us[1..])
  }

  /** Once a runner sprints it sprints in every later epoch of this driver. */
  lemma {:induction false} SprintingIsSticky(r: Runners.Runner, us: seq<real>)
    requires r.sprinting
    ensures Steps(r, us).sprinting
    decreases |us|
  {
    if |us| > 0 {
      SprintingIsSticky(RunnerStep(r, us[0]), us[1..]);
    }
  }

  /** The recovery counter after `k` failure-free epochs is `max(c - k, 0)`,
      and validity is kept throughout. */
  lemma {:induction false} RecoveryCountsDown(r: Runners.Runner, us: seq<real>)
    requires Runners.Valid(r)
    ensures Steps(r, us).recovery == MaxInt(r.recovery - |us|, 0)
    ensures Runners.Valid(Steps(r, us))
    decreases |us|
  {
    if |us| > 0 {
      StepRecovery(r, us[0]);
      RecoveryCountsDown(RunnerStep(r, us[0]), us[1..]);
    }
  }
}
