/** One compute unit (model/TaskRunner.java): a FIFO queue of tasks, a
    sticky sprint flag and a recovery countdown. The sprint threshold is
    mutable here because the coordinator broadcasts a new one; the utility
    the runner draws each epoch (`Math.random()` in the source) is a
    parameter. */
module Runners {
  import opened Basics
  import Tasks

  /** Recovery length after a thermal failure. */
  const CoolingEpochs: int := 5
  /** Recovery length after a power failure. */
  const PowerEpochs: int := 5

  datatype Runner = Runner(
    id: int,
    serverId: int,
    rackId: int,
    queue: seq<Tasks.Task>,
    sprinting: bool,
    threshold: real,
    recovery: int)

  /** The state every operation keeps: the counter is never negative, and a
      sprinting runner is never in recovery. */
  predicate Valid(r: Runner)
  {
    r.recovery >= 0 && (r.sprinting ==> r.recovery == 0)
  }

  function NewRunner(id: int, threshold: real, serverId: int, rackId: int): (r: Runner)
    ensures Valid(r) && CanSprint(r) && !r.sprinting
    ensures r.queue == [] && TotalWork(r) == 0
    ensures r.id == id && r.threshold == threshold
    ensures r.serverId == serverId && r.rackId == rackId
  {
    Runner(id, serverId, rackId, [], false, threshold, 0)
  }

  /** Sum of the remaining effort over a queue. */
  function QueueWork(q: seq<Tasks.Task>): int
  {
    if |q| == 0 then 0 else QueueWork(q[..|q| - 1]) + q[|q| - 1].remaining
  }

  lemma {:induction false} QueueWorkAppend(p: seq<Tasks.Task>, q: seq<Tasks.Task>)
    ensures QueueWork(p + q) == QueueWork(p) + QueueWork(q)
    decreases |q|
  {
    if |q| == 0 {
      assert p + q == p;
    } else {
      assert (p + q)[..|p + q| - 1] == p + q[..|q| - 1];
      QueueWorkAppend(p, q[..|q| - 1]);
    }
  }

  /** The first task's remaining effort plus the rest of the queue. */
  lemma QueueWorkHead(q: seq<Tasks.Task>)
    requires |q| > 0
    ensures QueueWork(q) == q[0].remaining + QueueWork(q[1..])
  {
    assert q == [q[0]] + q[1..];
    QueueWorkAppend([q[0]], q[1..]);
    assert [q[0]][..0] == [];
  }

  /** `getTotalWork`: recomputed on demand from the queue. */
  function TotalWork(r: Runner): int
  {
    QueueWork(r.queue)
  }

  /** `addTask`: append at the tail. */
  function AddTask(r: Runner, t: Tasks.Task): (r': Runner)
    ensures r'.queue == r.queue + [t]
    ensures TotalWork(r') == TotalWork(r) + t.remaining
    ensures r' == r.(queue := r'.queue)
  {
    QueueWorkAppend(r.queue, [t]);
    assert [t][..0] == [];
    r.(queue := r.queue + [t])
  }

  /** `evaluateSprint` with the runner's utility draw `utility`. */
  function EvaluateSprint(r: Runner, utility: real): (r': Runner)
    ensures r.recovery > 0 ==> r' == r
    ensures r.recovery <= 0 ==> (r'.sprinting <==> r.sprinting || utility > r.threshold)
    ensures r' == r.(sprinting := r'.sprinting)
    ensures r.sprinting ==> r'.sprinting
    ensures Valid(r) ==> Valid(r')
  {
    if r.recovery > 0 then r
    else if utility > r.threshold then r.(sprinting := true)
    else r
  }

  /** `executeEpoch`: advance only the head task, at the runner's current
      sprint setting, and dequeue it iff it completed. */
  function ExecuteEpoch(r: Runner): (r': Runner)
    ensures |r.queue| == 0 ==> r' == r
    ensures r' == r.(queue := r'.queue)
    ensures |r.queue| > 0 ==>
              var h := Tasks.ExecuteEpoch(r.queue[0], r.sprinting);
              && (h.state == Tasks.Completed ==> r'.queue == r.queue[1..])
              && (h.state != Tasks.Completed ==> r'.queue == [h] + r.queue[1..])
    ensures |r.queue| > 0 && r.queue[0].state != Tasks.Completed ==>
              TotalWork(r') == TotalWork(r) - r.queue[0].remaining
                               + Tasks.ExecuteEpoch(r.queue[0], r.sprinting).remaining
    ensures Valid(r) ==> Valid(r')
  {
    if |r.queue| == 0 then r
    else
      var h := Tasks.ExecuteEpoch(r.queue[0], r.sprinting);
      QueueWorkHead(r.queue);
      if h.state == Tasks.Completed then
        r.(queue := r.queue[1..])
      else
        QueueWorkHead([h] + r.queue[1..]);
        assert ([h] + r.queue[1..])[1..] == r.queue[1..];
        r.(queue := [h] + r.queue[1..])
  }

  /** `updateState`: age a pending recovery by one epoch. */
  function UpdateState(r: Runner): (r': Runner)
    ensures r.recovery > 0 ==> r'.recovery == r.recovery - 1
    ensures r.recovery <= 0 ==> r' == r
    ensures r' == r.(recovery := r'.recovery)
    ensures Valid(r) ==> Valid(r')
  {
    if r.recovery > 0 then r.(recovery := r.recovery - 1) else r
  }

  /** Shared body of both failure handlers: merge the counter with `max`
      and stop sprinting. */
  function EnterRecovery(r: Runner, epochs: int): (r': Runner)
    ensures r'.recovery == MaxInt(r.recovery, epochs)
    ensures !r'.sprinting
    ensures r' == r.(recovery := r'.recovery, sprinting := false)
  {
    r.(recovery := MaxInt(r.recovery, epochs), sprinting := false)
  }

  /** `updateEpochsInRecoveryForPowerFailure`. */
  function PowerFailure(r: Runner): (r': Runner)
    ensures r'.recovery >= PowerEpochs && r'.recovery >= r.recovery
    ensures r'.recovery == PowerEpochs || r'.recovery == r.recovery
    ensures !r'.sprinting && Valid(r')
    ensures r' == r.(recovery := r'.recovery, sprinting := false)
  {
    EnterRecovery(r, PowerEpochs)
  }

  /** `updateEpochsInRecoveryForThermalFailure`. */
  function ThermalFailure(r: Runner): (r': Runner)
    ensures r'.recovery >= CoolingEpochs && r'.recovery >= r.recovery
    ensures r'.recovery == CoolingEpochs || r'.recovery == r.recovery
    ensures !r'.sprinting && Valid(r')
    ensures r' == r.(recovery := r'.recovery, sprinting := false)
  {
    EnterRecovery(r, CoolingEpochs)
  }

  /** Both handlers are idempotent and never shorten a longer pending
      recovery. */
  lemma FailureHandlersIdempotent(r: Runner)
    ensures PowerFailure(PowerFailure(r)) == PowerFailure(r)
    ensures ThermalFailure(ThermalFailure(r)) == ThermalFailure(r)
    ensures r.recovery >= PowerEpochs ==> PowerFailure(r).recovery == r.recovery
    ensures r.recovery >= CoolingEpochs ==> ThermalFailure(r).recovery == r.recovery
  {
  }

  /** `canSprint`. */
  predicate CanSprint(r: Runner)
  {
    r.recovery == 0
  }

  /** Recovery blocks sprinting: a valid runner that sprints can sprint, and
      evaluation only ever changes a runner that can sprint. */
  lemma CanSprintGuardsSprinting(r: Runner, utility: real)
    requires Valid(r)
    ensures r.sprinting ==> CanSprint(r)
    ensures EvaluateSprint(r, utility) != r ==> CanSprint(r)
    ensures CanSprint(r) <==> !(r.recovery > 0)
  {
  }

  /** `setSprintThreshold`, called by the coordinator's broadcast. */
  function SetThreshold(r: Runner, threshold: real): (r': Runner)
    ensures r'.threshold == threshold
    ensures r' == r.(threshold := threshold)
    ensures Valid(r) ==> Valid(r')
  {
    r.(threshold := threshold)
  }
}
