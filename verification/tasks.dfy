/** The unit of work of the simulation (model/Task.java): an effort
    countdown with a lifecycle PENDING -> RUNNING -> COMPLETED and a fixed
    utility. Random draws of the two-argument constructor are parameters. */
module Tasks {
  import opened Basics

  /** model/TaskState.java; the prototype's identical enum is this one too. */
  datatype TaskState = Pending | Running | Completed

  datatype Task = Task(id: int, duration: int, remaining: int, state: TaskState, utility: real)

  /** Effort units one epoch consumes: two while sprinting, one otherwise. */
  function Units(sprinting: bool): (u: int)
    ensures u >= 1
    ensures sprinting <==> u == 2
  {
    if sprinting then 2 else 1
  }

  /** The three-argument constructor. */
  function NewTask(id: int, duration: int, utility: real): (t: Task)
    ensures t.state == Pending
    ensures t.remaining == t.duration == duration
    ensures t.id == id && t.utility == utility
  {
    Task(id, duration, duration, Pending, utility)
  }

  /** The clamp of `clampedNormal`: `mean + std * gaussian` saturated into
      [0, 1]; `gaussian` is the value `nextGaussian()` returned. */
  function ClampedNormal(mean: real, std: real, gaussian: real): (u: real)
    ensures 0.0 <= u <= 1.0
    ensures 0.0 <= mean + std * gaussian <= 1.0 ==> u == mean + std * gaussian
    ensures mean + std * gaussian < 0.0 ==> u == 0.0
    ensures 1.0 < mean + std * gaussian ==> u == 1.0
  {
    Clamp(mean + std * gaussian, 0.0, 1.0)
  }

  /** The two-argument constructor: with `coin` below 0.7 the utility is a
      low-benefit sample around 0.2, otherwise a high-benefit one around 0.8. */
  function NewRandomTask(id: int, duration: int, coin: real, gaussian: real): (t: Task)
    ensures t.state == Pending
    ensures t.remaining == t.duration == duration
    ensures 0.0 <= t.utility <= 1.0
    ensures coin < 0.7 ==> t.utility == ClampedNormal(0.2, 0.08, gaussian)
    ensures coin >= 0.7 ==> t.utility == ClampedNormal(0.8, 0.08, gaussian)
  {
    var u := if coin < 0.7 then ClampedNormal(0.2, 0.08, gaussian) else ClampedNormal(0.8, 0.08, gaussian);
    Task(id, duration, duration, Pending, u)
  }

  /** `getDuration`: the units still to do, not the original duration. */
  function Duration(t: Task): int
  {
    t.remaining
  }

  /** One epoch of work on the task. */
  function ExecuteEpoch(t: Task, sprinting: bool): (t': Task)
    ensures t.state == Completed ==> t' == t
    ensures t'.id == t.id && t'.duration == t.duration && t'.utility == t.utility
    ensures t.state != Completed ==> t'.state != Pending
    ensures t.state != Completed ==> (t'.state == Completed <==> t'.remaining == 0)
    ensures t.state != Completed ==> 0 <= t'.remaining
    ensures t.state != Completed && t.remaining > Units(sprinting) ==>
              t'.remaining == t.remaining - Units(sprinting) && t'.state == Running
    ensures t.state != Completed && t.remaining <= Units(sprinting) ==>
              t'.remaining == 0 && t'.state == Completed
    ensures 0 <= t.remaining ==> t'.remaining <= t.remaining
  {
    if t.state == Completed then t
    else
      var left := t.remaining - Units(sprinting);
      if left <= 0 then t.(remaining := 0, state := Completed)
      else t.(remaining := left, state := Running)
  }

  /** The task after `k` consecutive epochs at the same sprint setting. */
  function Run(t: Task, sprinting: bool, k: nat): Task
  {
    if k == 0 then t else ExecuteEpoch(Run(t, sprinting, k - 1), sprinting)
  }

  /** While fewer than `remaining` units have been consumed the task keeps
      running and has lost exactly `Units` per epoch. */
  lemma {:induction false} RunProgress(t: Task, sprinting: bool, k: nat)
    requires t.state != Completed
    requires k * Units(sprinting) < t.remaining
    ensures Run(t, sprinting, k).remaining == t.remaining - k * Units(sprinting)
    ensures Run(t, sprinting, k).state != Completed
    ensures k > 0 ==> Run(t, sprinting, k).state == Running
  {
    if k > 0 {
      assert (k - 1) * Units(sprinting) < t.remaining by {
        if sprinting {} else {}
      }
      RunProgress(t, sprinting, k - 1);
      if sprinting {} else {}
    }
  }

  /** A task with `d >= 1` units left completes after exactly
      ceil(d / Units) epochs, and not before. */
  lemma CompletesAfter(t: Task, sprinting: bool)
    requires t.state != Completed
    requires t.remaining >= 1
    ensures var k := (t.remaining + Units(sprinting) - 1) / Units(sprinting);
            && Run(t, sprinting, k).state == Completed
            && Run(t, sprinting, k).remaining == 0
            && forall j: nat :: j < k ==> Run(t, sprinting, j).state != Completed
  {
    var u := Units(sprinting);
    var k := (t.remaining + u - 1) / u;
    assert k >= 1 && (k - 1) * u < t.remaining <= k * u by {
      if sprinting {} else {}
    }
    RunProgress(t, sprinting, k - 1);
    forall j: nat | j < k
      ensures Run(t, sprinting, j).state != Completed
    {
      assert j * u <= (k - 1) * u by {
        if sprinting {} else {}
      }
      RunProgress(t, sprinting, j);
    }
  }

  /** A fresh task of duration `d >= 1` completes after exactly `d` ordinary
      epochs, or after ceil(d / 2) sprinting epochs. */
  lemma NewTaskCompletion(id: int, d: int, utility: real)
    requires d >= 1
    ensures Run(NewTask(id, d, utility), false, d).state == Completed
    ensures forall j: nat :: j < d ==> Run(NewTask(id, d, utility), false, j).state != Completed
    ensures Run(NewTask(id, d, utility), true, (d + 1) / 2).state == Completed
    ensures forall j: nat :: j < (d + 1) / 2 ==> Run(NewTask(id, d, utility), true, j).state != Completed
  {
    CompletesAfter(NewTask(id, d, utility), false);
    CompletesAfter(NewTask(id, d, utility), true);
  }

  /** `getDuration` reports the shrinking remaining effort: after one
      ordinary epoch of a fresh task of duration `d >= 2` it reports `d - 1`. */
  lemma DurationIsRemaining(id: int, d: int, utility: real)
    requires d >= 2
    ensures Duration(ExecuteEpoch(NewTask(id, d, utility), false)) == d - 1
    ensures Duration(ExecuteEpoch(NewTask(id, d, utility), false)) != NewTask(id, d, utility).duration
  {
  }
}
