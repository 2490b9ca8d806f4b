/** The earlier prototype (org/sprinting/Task.java): a task that consumes
    one epoch unit per call. Its state enum is the same three-valued
    lifecycle as the main model's. */
module ProtoTasks {
  import opened Basics
  import Tasks

  datatype Task = Task(id: string, total: int, remaining: int, state: Tasks.TaskState)

  function New(id: string, total: int): (t: Task)
    ensures t.id == id && t.total == total
    ensures t.remaining == total && t.state == Tasks.Pending
    ensures total >= 0 <==> Valid(t)
  {
    Task(id, total, total, Tasks.Pending)
  }

  /** What every call keeps once it holds: the effort is never negative,
      and a completed task has none left. */
  predicate Valid(t: Task)
  {
    t.remaining >= 0 && (t.state == Tasks.Completed ==> t.remaining == 0)
  }

  /** `executeEpoch`. */
  function ExecuteEpoch(t: Task): (t': Task)
    ensures t.state == Tasks.Completed ==> t' == t
    ensures t'.id == t.id && t'.total == t.total
    ensures t.state != Tasks.Completed && t.remaining > 0 ==> t'.remaining == t.remaining - 1
    ensures t.state != Tasks.Completed && t.remaining <= 0 ==> t'.remaining == t.remaining
    ensures t.state != Tasks.Completed ==>
              && t'.state != Tasks.Pending
              && (t'.state == Tasks.Completed <==> t'.remaining == 0)
    ensures Valid(t) ==> Valid(t') && t'.remaining <= t.remaining
  {
    if t.state == Tasks.Completed then t
    else
      var left := if t.remaining > 0 then t.remaining - 1 else t.remaining;
      t.(remaining := left, state := if left == 0 then Tasks.Completed else Tasks.Running)
  }

  /** The task after `k` calls. */
  function Run(t: Task, k: nat): Task
  {
    if k == 0 then t else ExecuteEpoch(Run(t, k - 1))
  }

  /** While fewer calls than units have been made the task is running or
      pending and has lost one unit per call. */
  lemma {:induction false} RunProgress(t: Task, k: nat)
    requires t.state != Tasks.Completed && k < t.remaining
    ensures Run(t, k).remaining == t.remaining - k
    ensures Run(t, k).state != Tasks.Completed
    ensures Run(t, k).id == t.id && Run(t, k).total == t.total
  {
    if k > 0 {
      RunProgress(t, k - 1);
    }
  }

  /** Number of calls a valid task needs: its units, but at least one call
      to notice a task that started with none. */
  function CallsToComplete(t: Task): nat
  {
    if t.state == Tasks.Completed then 0 else if t.remaining <= 0 then 1 else t.remaining
  }

  /** A valid task completes after exactly `CallsToComplete` calls, and not
      before; it then has no units left. */
  lemma CompletesAfter(t: Task)
    requires Valid(t)
    ensures Run(t, CallsToComplete(t)).state == Tasks.Completed
    ensures Run(t, CallsToComplete(t)) == Finished(t)
    ensures forall j: nat :: j < CallsToComplete(t) ==> Run(t, j).state != Tasks.Completed
  {
    if t.state != Tasks.Completed {
      var k := CallsToComplete(t);
      if t.remaining > 0 {
        RunProgress(t, k - 1);
        forall j: nat | j < k
          ensures Run(t, j).state != Tasks.Completed
        {
          RunProgress(t, j);
        }
      }
    }
  }

  /** A fresh task of `n >= 1` units completes after exactly `n` calls; one
      of 0 units completes on the first call. */
  lemma NewTaskCompletion(id: string, n: int)
    requires n >= 0
    ensures n >= 1 ==> Run(New(id, n), n).state == Tasks.Completed
    ensures forall j: nat :: j < n ==> Run(New(id, n), j).state != Tasks.Completed
    ensures n == 0 ==> Run(New(id, n), 1).state == Tasks.Completed
  {
    CompletesAfter(New(id, n));
  }

  /** A task that starts with negative units never completes: no call
      changes its effort. */
  lemma {:induction false} NegativeNeverCompletes(t: Task, k: nat)
    requires t.state != Tasks.Completed && t.remaining < 0
    ensures Run(t, k).state != Tasks.Completed
    ensures Run(t, k).remaining == t.remaining
  {
    if k > 0 {
      NegativeNeverCompletes(t, k - 1);
    }
  }

  /** The task once it has run to completion. */
  function Finished(t: Task): (t': Task)
    ensures t'.state == Tasks.Completed && t'.remaining == 0
  {
    t.(remaining := 0, state := Tasks.Completed)
  }
}

/** The prototype runner (org/sprinting/TaskRunner.java): a FIFO queue and
    a cached `totalWork` that `addTask` raises and `runAllTasks` lowers by
    the remaining units of each finished task. */
module ProtoRunners {
  import opened Basics
  import Tasks
  import ProtoTasks

  datatype Runner = Runner(id: string, queue: seq<ProtoTasks.Task>, totalWork: int)

  function New(id: string): (r: Runner)
    ensures r.id == id && r.queue == [] && r.totalWork == 0
    ensures Consistent(r)
  {
    Runner(id, [], 0)
  }

  /** Sum of the remaining units over a queue. */
  function Work(ts: seq<ProtoTasks.Task>): int
  {
    if |ts| == 0 then 0 else Work(ts[..|ts| - 1]) + ts[|ts| - 1].remaining
  }

  lemma {:induction false} WorkAppend(p: seq<ProtoTasks.Task>, q: seq<ProtoTasks.Task>)
    ensures Work(p + q) == Work(p) + Work(q)
    decreases |q|
  {
    if |q| == 0 {
      assert p + q == p;
    } else {
      assert (p + q)[..|p + q| - 1] == p + q[..|q| - 1];
      WorkAppend(p, q[..|q| - 1]);
    }
  }

  /** The first task's units plus the rest of the queue's. */
  lemma WorkHead(ts: seq<ProtoTasks.Task>)
    requires |ts| > 0
    ensures Work(ts) == ts[0].remaining + Work(ts[1..])
  {
    assert ts == [ts[0]] + ts[1..];
    WorkAppend([ts[0]], ts[1..]);
    assert [ts[0]][..0] == [];
  }

  /** The cached total matches the queue. */
  predicate Consistent(r: Runner)
  {
    r.totalWork == Work(r.queue)
  }

  /** `addTask`. */
  function AddTask(r: Runner, t: ProtoTasks.Task): (r': Runner)
    ensures r'.id == r.id && r'.queue == r.queue + [t]
    ensures r'.totalWork == r.totalWork + t.remaining
    ensures Consistent(r) ==> Consistent(r')
  {
    assert (r.queue + [t])[..|r.queue|] == r.queue;
    Runner(r.id, r.queue + [t], r.totalWork + t.remaining)
  }

  /** `addTask` for each task of `ts`, in order. */
  function AddAll(r: Runner, ts: seq<ProtoTasks.Task>): (r': Runner)
    decreases |ts|
  {
    if |ts| == 0 then r else AddTask(AddAll(r, ts[..|ts| - 1]), ts[|ts| - 1])
  }

  /** Adding a batch appends it and raises the cached total by its units. */
  lemma {:induction false} AddAllTotal(r: Runner, ts: seq<ProtoTasks.Task>)
    ensures AddAll(r, ts).id == r.id
    ensures AddAll(r, ts).queue == r.queue + ts
    ensures AddAll(r, ts).totalWork == r.totalWork + Work(ts)
    decreases |ts|
  {
    if |ts| > 0 {
      AddAllTotal(r, ts[..|ts| - 1]);
      assert r.queue + ts[..|ts| - 1] + [ts[|ts| - 1]] == r.queue + ts;
    }
  }

  /** The inner loop of `runAllTasks`: call `executeEpoch` until the task
      reports COMPLETED. It terminates because a valid task's effort is
      never negative. */
  method RunToCompletion(t: ProtoTasks.Task) returns (t': ProtoTasks.Task, calls: nat)
    requires ProtoTasks.Valid(t)
    ensures t' == ProtoTasks.Run(t, calls)
    ensures calls == ProtoTasks.CallsToComplete(t)
    ensures t' == ProtoTasks.Finished(t)
  {
    t' := t;
    calls := 0;
    ProtoTasks.CompletesAfter(t);
    while t'.state != Tasks.Completed
      invariant ProtoTasks.Valid(t')
      invariant t' == ProtoTasks.Run(t, calls)
      invariant calls <= ProtoTasks.CallsToComplete(t)
      decreases t'.remaining + (if t'.state == Tasks.Completed then 0 else 1)
    {
      t' := ProtoTasks.ExecuteEpoch(t');
      calls := calls + 1;
    }
  }

  /** The runner once its queue is polled empty: `totalWork` is only ever
      lowered by 0, the units left on a completed task. */
  function Drained(r: Runner): (r': Runner)
    ensures r'.queue == [] && r'.id == r.id && r'.totalWork == r.totalWork
  {
    r.(queue := [])
  }

  /** `runAllTasks`: poll each task in FIFO order, run it to completion, and
      subtract its remaining units from the cached total. `done` holds the
      polled tasks in final state, in polling order. */
  method RunAllTasks(r: Runner) returns (r': Runner, done: seq<ProtoTasks.Task>)
    requires forall i :: 0 <= i < |r.queue| ==> ProtoTasks.Valid(r.queue[i])
    ensures r' == Drained(r)
    ensures |done| == |r.queue|
    ensures forall i :: 0 <= i < |done| ==> done[i] == ProtoTasks.Finished(r.queue[i])
  {
    r' := r;
    done := [];
    while |r'.queue| > 0
      invariant r'.id == r.id && r'.totalWork == r.totalWork
      invariant |done| + |r'.queue| == |r.queue|
      invariant r'.queue == r.queue[|done|..]
      invariant forall i :: 0 <= i < |done| ==> done[i] == ProtoTasks.Finished(r.queue[i])
      decreases |r'.queue|
    {
      var current := r'.queue[0];
      r' := r'.(queue := r'.queue[1..]);
      var finished, _ := RunToCompletion(current);
      r' := r'.(totalWork := r'.totalWork - finished.remaining);
      done := done + [finished];
    }
  }

  /** The cached total goes stale: after `runAllTasks` on a runner whose
      queue still held work, the queue is empty but the total is not 0. */
  lemma DrainedIsStale(r: Runner)
    requires Consistent(r) && Work(r.queue) != 0
    ensures !Consistent(Drained(r))
    ensures Drained(r).totalWork == Work(r.queue)
  {
  }

  /** From a fresh runner, the cached total is the sum of the units of every
      task ever added, however often the queue was drained in between. */
  lemma TotalCountsEverAdded(id: string, first: seq<ProtoTasks.Task>, second: seq<ProtoTasks.Task>)
    ensures AddAll(Drained(AddAll(New(id), first)), second).totalWork == Work(first) + Work(second)
    ensures AddAll(Drained(AddAll(New(id), first)), second).queue == second
  {
    AddAllTotal(New(id), first);
    AddAllTotal(Drained(AddAll(New(id), first)), second);
  }
}

/** The prototype coordinator (org/sprinting/Coordinator.java): a global
    FIFO of submitted tasks, drained onto the runner with the least cached
    total. */
module ProtoCoordination {
  import opened Basics
  import Tasks
  import ProtoTasks
  import ProtoRunners
  import Scheduling

  datatype Coordinator = Coordinator(runners: seq<ProtoRunners.Runner>, pending: seq<ProtoTasks.Task>)

  // ---------------------------------------------------------------------
  // Runner names: "MP-" followed by the decimal index

  function Digit(d: int): (c: char)
    requires 0 <= d < 10
    ensures '0' <= c <= '9'
  {
    "0123456789"[d]
  }

  function DigitValue(c: char): (d: int)
    requires '0' <= c <= '9'
    ensures 0 <= d < 10
  {
    (c as int) - ('0' as int)
  }

  predicate IsDecimal(s: string)
  {
    |s| > 0 && forall i :: 0 <= i < |s| ==> '0' <= s[i] <= '9'
  }

  /** Java's decimal rendering of a non-negative `int`. */
  function Decimal(n: nat): (s: string)
    ensures IsDecimal(s)
    decreases n
  {
    if n < 10 then [Digit(n)] else Decimal(n / 10) + [Digit(n % 10)]
  }

  function ParseDecimal(s: string): nat
    requires IsDecimal(s)
    decreases |s|
  {
    if |s| == 1 then DigitValue(s[0])
    else ParseDecimal(s[..|s| - 1]) * 10 + DigitValue(s[|s| - 1])
  }

  /** Reading back a rendered index gives the index. */
  lemma {:induction false} ParseDecimalInverts(n: nat)
    ensures ParseDecimal(Decimal(n)) == n
    decreases n
  {
    if n >= 10 {
      ParseDecimalInverts(n / 10);
      var s := Decimal(n);
      assert s[..|s| - 1] == Decimal(n / 10);
      assert DigitValue(s[|s| - 1]) == n % 10;
    } else {
      assert DigitValue(Digit(n)) == n;
    }
  }

  function RunnerId(i: nat): string
  {
    "MP-" + Decimal(i)
  }

  /** Distinct indices give distinct names. */
  lemma RunnerIdInjective(i: nat, j: nat)
    ensures RunnerId(i) == RunnerId(j) <==> i == j
  {
    if RunnerId(i) == RunnerId(j) {
      assert RunnerId(i)[3..] == Decimal(i);
      assert RunnerId(j)[3..] == Decimal(j);
      ParseDecimalInverts(i);
      ParseDecimalInverts(j);
    }
  }

  // ---------------------------------------------------------------------
  // Construction, submission and scheduling

  /** The constructor: `numRunners` fresh runners, none for a negative
      count, and an empty global queue. */
  function New(numRunners: int): (c: Coordinator)
    ensures |c.runners| == MaxInt(numRunners, 0)
    ensures forall i :: 0 <= i < |c.runners| ==> c.runners[i] == ProtoRunners.New(RunnerId(i))
    ensures c.pending == []
  {
    var n := MaxInt(numRunners, 0);
    Coordinator(seq(n, i requires 0 <= i < n => ProtoRunners.New(RunnerId(i))), [])
  }

  /** The runners of a fresh coordinator have pairwise distinct names. */
  lemma NewRunnerIdsDistinct(numRunners: int, i: int, j: int)
    requires 0 <= i < |New(numRunners).runners| && 0 <= j < |New(numRunners).runners|
    ensures New(numRunners).runners[i].id == New(numRunners).runners[j].id <==> i == j
  {
    RunnerIdInjective(i, j);
  }

  /** `submitTask`: append to the global queue. */
  function SubmitTask(c: Coordinator, t: ProtoTasks.Task): (c': Coordinator)
    ensures c'.pending == c.pending + [t] && c'.runners == c.runners
  {
    c.(pending := c.pending + [t])
  }

  function Totals(rs: seq<ProtoRunners.Runner>): (ts: seq<int>)
    ensures |ts| == |rs|
    ensures forall i :: 0 <= i < |rs| ==> ts[i] == rs[i].totalWork
  {
    seq(|rs|, i requires 0 <= i < |rs| => rs[i].totalWork)
  }

  /** One iteration of `schedule`: `Collections.min` keeps the first of
      several runners with the least cached total. */
  function Assign(rs: seq<ProtoRunners.Runner>, t: ProtoTasks.Task): (rs': seq<ProtoRunners.Runner>)
    requires |rs| > 0
    ensures |rs'| == |rs|
    ensures var k := Scheduling.FirstMin(Totals(rs));
            && (forall j :: 0 <= j < |rs| ==> rs[k].totalWork <= rs[j].totalWork)
            && (forall j :: 0 <= j < k ==> rs[k].totalWork < rs[j].totalWork)
            && rs'[k] == ProtoRunners.AddTask(rs[k], t)
            && (forall j :: 0 <= j < |rs| && j != k ==> rs'[j] == rs[j])
    ensures forall j :: 0 <= j < |rs| ==> rs'[j].id == rs[j].id
  {
    var k := Scheduling.FirstMin(Totals(rs));
    rs[k := ProtoRunners.AddTask(rs[k], t)]
  }

  /** Sum of the queue lengths over all runners. */
  function QueuedCount(rs: seq<ProtoRunners.Runner>): int
  {
    Sum(seq(|rs|, i requires 0 <= i < |rs| => |rs[i].queue|))
  }

  /** One assignment raises the summed totals by the task's units and the
      summed queue lengths by one. */
  lemma AssignAddsTask(rs: seq<ProtoRunners.Runner>, t: ProtoTasks.Task)
    requires |rs| > 0
    ensures Sum(Totals(Assign(rs, t))) == Sum(Totals(rs)) + t.remaining
    ensures QueuedCount(Assign(rs, t)) == QueuedCount(rs) + 1
  {
    var k := Scheduling.FirstMin(Totals(rs));
    var rs' := Assign(rs, t);
    assert Totals(rs') == Totals(rs)[k := Totals(rs)[k] + t.remaining];
    SumUpdate(Totals(rs), k, Totals(rs)[k] + t.remaining);
    var lens := seq(|rs|, i requires 0 <= i < |rs| => |rs[i].queue|);
    assert seq(|rs'|, i requires 0 <= i < |rs'| => |rs'[i].queue|) == lens[k := lens[k] + 1];
    SumUpdate(lens, k, lens[k] + 1);
  }

  /** The remaining units of a batch, in order. */
  function Units(ts: seq<ProtoTasks.Task>): (us: seq<int>)
    ensures |us| == |ts|
    ensures forall i :: 0 <= i < |ts| ==> us[i] == ts[i].remaining
  {
    seq(|ts|, i requires 0 <= i < |ts| => ts[i].remaining)
  }

  /** On the cached totals, one assignment is one step of the greedy rule. */
  lemma AssignIsGreedyStep(rs: seq<ProtoRunners.Runner>, t: ProtoTasks.Task)
    requires |rs| > 0
    ensures Totals(Assign(rs, t)) == Scheduling.GreedyStep(Totals(rs), t.remaining)
  {
    var k := Scheduling.FirstMin(Totals(rs));
    assert Totals(Assign(rs, t)) == Totals(rs)[k := Totals(rs)[k] + t.remaining];
  }

  /** The reference placement: `Assign` applied to each task of a batch in
      turn, the last task last. */
  function AssignEach(rs: seq<ProtoRunners.Runner>, ts: seq<ProtoTasks.Task>): (rs': seq<ProtoRunners.Runner>)
    requires |rs| > 0
    ensures |rs'| == |rs|
    ensures Totals(rs') == Scheduling.GreedyLoads(Totals(rs), Units(ts))
    decreases |ts|
  {
    if |ts| == 0 then rs
    else
      var n := |ts|;
      var front := AssignEach(rs, ts[..n - 1]);
      AssignIsGreedyStep(front, ts[n - 1]);
      assert Units(ts)[..n - 1] == Units(ts[..n - 1]);
      Assign(front, ts[n - 1])
  }

  /** Assigning one task and then a batch is assigning the batch with that
      task in front. */
  lemma {:induction false} AssignEachCons(rs: seq<ProtoRunners.Runner>, t: ProtoTasks.Task, ts: seq<ProtoTasks.Task>)
    requires |rs| > 0
    ensures AssignEach(Assign(rs, t), ts) == AssignEach(rs, [t] + ts)
    decreases |ts|
  {
    if |ts| == 0 {
      assert ([t] + ts)[..0] == [];
    } else {
      var n := |ts|;
      AssignEachCons(rs, t, ts[..n - 1]);
      ConsLast(t, ts);
    }
  }

  /** `schedule`: assign every pending task in FIFO order. With a pending
      task and no runner `Collections.min` throws, which is `None`. */
  function Schedule(c: Coordinator): (res: Option<Coordinator>)
    ensures res.None? <==> |c.runners| == 0 && |c.pending| > 0
    ensures res.Some? ==> res.value.pending == [] && |res.value.runners| == |c.runners|
    ensures res.Some? ==> forall j :: 0 <= j < |c.runners| ==> res.value.runners[j].id == c.runners[j].id
    ensures res.Some? && |c.runners| > 0 ==>
              Totals(res.value.runners) == Scheduling.GreedyLoads(Totals(c.runners), Units(c.pending))
    decreases |c.pending|
  {
    if |c.pending| == 0 then Some(c)
    else if |c.runners| == 0 then None
    else
      var t := c.pending[0];
      AssignIsGreedyStep(c.runners, t);
      Scheduling.GreedyLoadsCons(Totals(c.runners), t.remaining, Units(c.pending[1..]));
      assert Units(c.pending) == [t.remaining] + Units(c.pending[1..]);
      Schedule(Coordinator(Assign(c.runners, t), c.pending[1..]))
  }

  /** Scheduling is the left fold of `Assign` over the pending tasks: each
      task, in FIFO order, goes to the first runner with the least cached
      total at that moment. */
  lemma {:induction false} ScheduleIsFold(c: Coordinator)
    requires |c.runners| > 0
    ensures Schedule(c) == Some(Coordinator(AssignEach(c.runners, c.pending), []))
    decreases |c.pending|
  {
    if |c.pending| > 0 {
      var t := c.pending[0];
      var c' := Coordinator(Assign(c.runners, t), c.pending[1..]);
      assert Schedule(c) == Schedule(c');
      ScheduleIsFold(c');
      AssignEachCons(c.runners, t, c.pending[1..]);
      HeadAndTail(c.pending);
    }
  }

  /** The front and the last task of a queue with one task put in front. */
  lemma ConsLast(t: ProtoTasks.Task, ts: seq<ProtoTasks.Task>)
    requires |ts| > 0
    ensures ([t] + ts)[..|ts|] == [t] + ts[..|ts| - 1]
    ensures ([t] + ts)[|ts|] == ts[|ts| - 1]
  {
  }

  /** A non-empty queue is its head followed by its tail. */
  lemma HeadAndTail(ts: seq<ProtoTasks.Task>)
    requires |ts| > 0
    ensures [ts[0]] + ts[1..] == ts
  {
  }

  /** Scheduling moves every pending task onto a runner: the summed cached
      totals grow by the pending units and the summed queue lengths by the
      number of pending tasks. */
  lemma {:induction false} ScheduleAddsWork(c: Coordinator)
    requires |c.runners| > 0
    ensures Schedule(c).Some?
    ensures Sum(Totals(Schedule(c).value.runners))
            == Sum(Totals(c.runners)) + ProtoRunners.Work(c.pending)
    ensures QueuedCount(Schedule(c).value.runners) == QueuedCount(c.runners) + |c.pending|
    decreases |c.pending|
  {
    if |c.pending| > 0 {
      var c' := Coordinator(Assign(c.runners, c.pending[0]), c.pending[1..]);
      AssignAddsTask(c.runners, c.pending[0]);
      ScheduleAddsWork(c');
      ProtoRunners.WorkHead(c.pending);
    }
  }

  /** `executeAll`: every runner runs its queue dry, in list order. */
  method ExecuteAll(c: Coordinator) returns (c': Coordinator)
    requires forall i, j :: 0 <= i < |c.runners| && 0 <= j < |c.runners[i].queue| ==>
               ProtoTasks.Valid(c.runners[i].queue[j])
    ensures c'.pending == c.pending && |c'.runners| == |c.runners|
    ensures forall i :: 0 <= i < |c.runners| ==> c'.runners[i] == ProtoRunners.Drained(c.runners[i])
  {
    c' := c;
    var i := 0;
    while i < |c.runners|
      invariant 0 <= i <= |c.runners| && |c'.runners| == |c.runners|
      invariant c'.pending == c.pending
      invariant forall j :: 0 <= j < i ==> c'.runners[j] == ProtoRunners.Drained(c.runners[j])
      invariant forall j :: i <= j < |c.runners| ==> c'.runners[j] == c.runners[j]
    {
      var r, _ := ProtoRunners.RunAllTasks(c'.runners[i]);
      c' := c'.(runners := c'.runners[i := r]);
      i := i + 1;
    }
  }
}
