/** The greedy least-loaded scheduler (coordinator/GreedyScheduler.java),
    and the first-minimum search it shares with the prototype coordinator. */
module Scheduling {
  import opened Basics
  import Tasks
  import Runners

  /** Index of the first minimum of `xs`. Both `Stream.min` (a left
      reduction that keeps the earlier element unless the later one is
      strictly smaller) and `Collections.min` (which replaces its candidate
      only on a strictly smaller element) return this index. */
  function FirstMin(xs: seq<int>): (k: nat)
    requires |xs| > 0
    ensures k < |xs|
    ensures forall j :: 0 <= j < |xs| ==> xs[k] <= xs[j]
    ensures forall j :: 0 <= j < k ==> xs[k] < xs[j]
  {
    if |xs| == 1 then 0
    else
      var k := FirstMin(xs[..|xs| - 1]);
      if xs[|xs| - 1] < xs[k] then |xs| - 1 else k
  }

  /** The loads the scheduler compares: each runner's `getTotalWork`. */
  function Loads(rs: seq<Runners.Runner>): (ls: seq<int>)
    ensures |ls| == |rs|
    ensures forall i :: 0 <= i < |rs| ==> ls[i] == Runners.TotalWork(rs[i])
  {
    seq(|rs|, i requires 0 <= i < |rs| => Runners.TotalWork(rs[i]))
  }

  /** `assignTask`: append `t` to the first least-loaded runner. An empty
      runner list makes `orElseThrow` fail, hence the precondition. */
  function AssignTask(rs: seq<Runners.Runner>, t: Tasks.Task): (rs': seq<Runners.Runner>)
    requires |rs| > 0
    ensures |rs'| == |rs|
    ensures var k := FirstMin(Loads(rs));
            && rs'[k] == Runners.AddTask(rs[k], t)
            && (forall j :: 0 <= j < |rs| && j != k ==> rs'[j] == rs[j])
  {
    var k := FirstMin(Loads(rs));
    rs[k := Runners.AddTask(rs[k], t)]
  }

  /** The loads after one assignment: only the chosen entry grows, by the
      task's remaining effort. */
  lemma AssignLoads(rs: seq<Runners.Runner>, t: Tasks.Task)
    requires |rs| > 0
    ensures var k := FirstMin(Loads(rs));
            Loads(AssignTask(rs, t)) == Loads(rs)[k := Loads(rs)[k] + t.remaining]
  {
  }

  /** The total work over all runners grows by exactly the task's effort. */
  lemma AssignTaskAddsWork(rs: seq<Runners.Runner>, t: Tasks.Task)
    requires |rs| > 0
    ensures Sum(Loads(AssignTask(rs, t))) == Sum(Loads(rs)) + t.remaining
  {
    var ls := Loads(rs);
    var k := FirstMin(ls);
    AssignLoads(rs, t);
    SumUpdate(ls, k, ls[k] + t.remaining);
  }

  /** Sum of the remaining effort of a batch of tasks. */
  function BatchWork(ts: seq<Tasks.Task>): int
  {
    Runners.QueueWork(ts)
  }

  /** Assign a batch in order, one `assignTask` per task. */
  function AssignAll(rs: seq<Runners.Runner>, ts: seq<Tasks.Task>): (rs': seq<Runners.Runner>)
    requires |rs| > 0 || |ts| == 0
    ensures |rs'| == |rs|
    ensures forall i :: 0 <= i < |rs| ==> rs'[i] == rs[i].(queue := rs'[i].queue)
    decreases |ts|
  {
    if |ts| == 0 then rs
    else AssignTask(AssignAll(rs, ts[..|ts| - 1]), ts[|ts| - 1])
  }

  /** Total work over all runners grows by exactly the batch's effort. */
  lemma {:induction false} AssignAllAddsWork(rs: seq<Runners.Runner>, ts: seq<Tasks.Task>)
    requires |rs| > 0
    ensures Sum(Loads(AssignAll(rs, ts))) == Sum(Loads(rs)) + BatchWork(ts)
    decreases |ts|
  {
    if |ts| > 0 {
      AssignAllAddsWork(rs, ts[..|ts| - 1]);
      AssignTaskAddsWork(AssignAll(rs, ts[..|ts| - 1]), ts[|ts| - 1]);
    }
  }

  /** No two loads differ by more than `m`. */
  predicate Balanced(xs: seq<int>, m: int)
  {
    forall i, j :: 0 <= i < |xs| && 0 <= j < |xs| ==> xs[i] - xs[j] <= m
  }

  /** One greedy assignment of a task of effort at most `m` keeps the loads
      within `m` of one another. */
  lemma AssignKeepsBalance(rs: seq<Runners.Runner>, t: Tasks.Task, m: int)
    requires |rs| > 0
    requires Balanced(Loads(rs), m)
    requires 0 <= t.remaining <= m
    ensures Balanced(Loads(AssignTask(rs, t)), m)
  {
    var ls := Loads(rs);
    var ls' := Loads(AssignTask(rs, t));
    var k := FirstMin(ls);
    forall i, j | 0 <= i < |ls'| && 0 <= j < |ls'|
      ensures ls'[i] - ls'[j] <= m
    {
      assert ls'[k] == ls[k] + t.remaining;
      if i != k {
        assert ls'[i] == ls[i];
      }
      if j != k {
        assert ls'[j] == ls[j];
      }
    }
  }

  /** Every task of the batch has effort in `[0, m]`. */
  predicate EffortsWithin(ts: seq<Tasks.Task>, m: int)
  {
    forall i :: 0 <= i < |ts| ==> 0 <= ts[i].remaining <= m
  }

  /** Greedy fairness: from loads within `m` of each other, assigning any
      batch of tasks of effort at most `m` keeps them within `m`. */
  lemma {:induction false} AssignAllKeepsBalance(rs: seq<Runners.Runner>, ts: seq<Tasks.Task>, m: int)
    requires |rs| > 0
    requires Balanced(Loads(rs), m)
    requires EffortsWithin(ts, m)
    ensures Balanced(Loads(AssignAll(rs, ts)), m)
    decreases |ts|
  {
    if |ts| > 0 {
      AssignAllKeepsBalance(rs, ts[..|ts| - 1], m);
      AssignKeepsBalance(AssignAll(rs, ts[..|ts| - 1]), ts[|ts| - 1], m);
    }
  }

  /** Largest effort of a batch (0 for an empty batch). */
  function MaxEffort(ts: seq<Tasks.Task>): (m: int)
    ensures m >= 0
    ensures forall i :: 0 <= i < |ts| ==> ts[i].remaining <= m
  {
    if |ts| == 0 then 0
    else MaxInt(MaxEffort(ts[..|ts| - 1]), MaxInt(ts[|ts| - 1].remaining, 0))
  }

  /** From equal loads, the spread of the loads after a greedy batch never
      exceeds the largest effort assigned. */
  lemma FairnessFromEqualLoads(rs: seq<Runners.Runner>, ts: seq<Tasks.Task>)
    requires |rs| > 0
    requires Balanced(Loads(rs), 0)
    requires forall i :: 0 <= i < |ts| ==> ts[i].remaining >= 0
    ensures Balanced(Loads(AssignAll(rs, ts)), MaxEffort(ts))
  {
    var m := MaxEffort(ts);
    assert Balanced(Loads(rs), m);
    AssignAllKeepsBalance(rs, ts, m);
  }

  /** Assigning one more task of a batch is one more `assignTask`. */
  lemma AssignAllStep(rs: seq<Runners.Runner>, ts: seq<Tasks.Task>, i: nat)
    requires |rs| > 0 && i < |ts|
    ensures AssignAll(rs, ts[..i + 1]) == AssignTask(AssignAll(rs, ts[..i]), ts[i])
  {
    assert ts[..i + 1][..i] == ts[..i];
  }

  /** The greedy rule on bare loads: one effort goes to the first minimum. */
  function GreedyStep(ls: seq<int>, e: int): (ls': seq<int>)
    requires |ls| > 0
    ensures |ls'| == |ls|
  {
    var k := FirstMin(ls);
    ls[k := ls[k] + e]
  }

  /** The greedy rule applied to each effort in turn. */
  function GreedyLoads(ls: seq<int>, efforts: seq<int>): (ls': seq<int>)
    requires |ls| > 0
    ensures |ls'| == |ls|
    decreases |efforts|
  {
    if |efforts| == 0 then ls
    else GreedyStep(GreedyLoads(ls, efforts[..|efforts| - 1]), efforts[|efforts| - 1])
  }

  /** The remaining efforts of a batch, in order. */
  function Efforts(ts: seq<Tasks.Task>): (es: seq<int>)
    ensures |es| == |ts|
    ensures forall i :: 0 <= i < |ts| ==> es[i] == ts[i].remaining
    decreases |ts|
  {
    if |ts| == 0 then [] else Efforts(ts[..|ts| - 1]) + [ts[|ts| - 1].remaining]
  }

  /** One more effort is one more greedy step. */
  lemma GreedyLoadsStep(ls: seq<int>, es: seq<int>, e: int)
    requires |ls| > 0
    ensures GreedyLoads(ls, es + [e]) == GreedyStep(GreedyLoads(ls, es), e)
  {
    assert (es + [e])[..|es|] == es;
  }

  /** One greedy step followed by a batch is the greedy rule on the batch
      with that effort in front. */
  lemma {:induction false} GreedyLoadsCons(ls: seq<int>, e: int, es: seq<int>)
    requires |ls| > 0
    ensures GreedyLoads(GreedyStep(ls, e), es) == GreedyLoads(ls, [e] + es)
    decreases |es|
  {
    if |es| == 0 {
      GreedyLoadsStep(ls, [], e);
      assert [e] + es == [] + [e];
    } else {
      var n := |es|;
      GreedyLoadsCons(ls, e, es[..n - 1]);
      GreedyLoadsStep(ls, [e] + es[..n - 1], es[n - 1]);
      assert [e] + es == ([e] + es[..n - 1]) + [es[n - 1]];
    }
  }

  /** Assigning a batch of tasks moves the loads exactly as the greedy rule
      on bare numbers does. */
  lemma {:induction false} AssignAllLoads(rs: seq<Runners.Runner>, ts: seq<Tasks.Task>)
    requires |rs| > 0
    ensures Loads(AssignAll(rs, ts)) == GreedyLoads(Loads(rs), Efforts(ts))
    decreases |ts|
  {
    if |ts| > 0 {
      var n := |ts|;
      AssignAllLoads(rs, ts[..n - 1]);
      AssignAllLoadsStep(rs, ts);
    }
  }

  /** The first minimum of three loads, by cases. */
  lemma FirstMinOfThree(a: int, b: int, c: int)
    ensures a <= b && a <= c ==> FirstMin([a, b, c]) == 0
    ensures b < a && b <= c ==> FirstMin([a, b, c]) == 1
    ensures c < a && c < b ==> FirstMin([a, b, c]) == 2
  {
    var xs := [a, b, c];
    var k := FirstMin(xs);
    assert xs[k] <= xs[0] && xs[k] <= xs[1] && xs[k] <= xs[2];
    assert k > 0 ==> xs[k] < xs[0];
    assert k > 1 ==> xs[k] < xs[1];
  }

  /** One assignment is one greedy step on the loads. */
  lemma AssignIsGreedyStep(rs: seq<Runners.Runner>, t: Tasks.Task)
    requires |rs| > 0
    ensures Loads(AssignTask(rs, t)) == GreedyStep(Loads(rs), t.remaining)
  {
    AssignLoads(rs, t);
  }

  /** The efforts of a non-empty batch: those of all but the last task, then
      the last task's. */
  lemma EffortsLast(ts: seq<Tasks.Task>)
    requires |ts| > 0
    ensures Efforts(ts) == Efforts(ts[..|ts| - 1]) + [ts[|ts| - 1].remaining]
  {
  }

  /** The inductive step of `AssignAllLoads`. */
  lemma AssignAllLoadsStep(rs: seq<Runners.Runner>, ts: seq<Tasks.Task>)
    requires |rs| > 0 && |ts| > 0
    requires Loads(AssignAll(rs, ts[..|ts| - 1])) == GreedyLoads(Loads(rs), Efforts(ts[..|ts| - 1]))
    ensures Loads(AssignAll(rs, ts)) == GreedyLoads(Loads(rs), Efforts(ts))
  {
    var n := |ts|;
    var t := ts[n - 1];
    var a := AssignAll(rs, ts[..n - 1]);
    var es := Efforts(ts[..n - 1]);
    assert AssignAll(rs, ts) == AssignTask(a, t);
    AssignIsGreedyStep(a, t);
    GreedyLoadsStep(Loads(rs), es, t.remaining);
    EffortsLast(ts);
  }

  /** The greedy step on three loads, by cases. */
  lemma GreedyStepThree(ls: seq<int>, a: int, b: int, c: int, e: int)
    requires ls == [a, b, c]
    ensures a <= b && a <= c ==> GreedyStep(ls, e) == [a + e, b, c]
    ensures b < a && b <= c ==> GreedyStep(ls, e) == [a, b + e, c]
    ensures c < a && c < b ==> GreedyStep(ls, e) == [a, b, c + e]
  {
    FirstMinOfThree(a, b, c);
    assert ls[0 := a + e] == [a + e, b, c];
    assert ls[1 := b + e] == [a, b + e, c];
    assert ls[2 := c + e] == [a, b, c + e];
  }

  /** The greedy rule on the first `k` efforts: one more step after the
      first `k - 1`. */
  lemma GreedyLoadsPrefix(ls: seq<int>, es: seq<int>, k: int)
    requires |ls| > 0 && 0 < k <= |es|
    ensures GreedyLoads(ls, es[..k]) == GreedyStep(GreedyLoads(ls, es[..k - 1]), es[k - 1])
  {
    assert es[..k][..k - 1] == es[..k - 1];
  }

  /** Five efforts are five greedy steps. */
  lemma GreedyLoadsFive(ls: seq<int>, es: seq<int>)
    requires |ls| > 0 && |es| == 5
    ensures GreedyLoads(ls, es)
         == GreedyStep(GreedyStep(GreedyStep(GreedyStep(GreedyStep(ls, es[0]), es[1]), es[2]), es[3]), es[4])
  {
    var l1 := GreedyStep(ls, es[0]);
    assert GreedyLoads(ls, es[..1]) == l1 by {
      assert GreedyLoads(ls, es[..0]) == ls;
      GreedyLoadsPrefix(ls, es, 1);
    }
    var l2 := GreedyStep(l1, es[1]);
    assert GreedyLoads(ls, es[..2]) == l2 by { GreedyLoadsPrefix(ls, es, 2); }
    var l3 := GreedyStep(l2, es[2]);
    assert GreedyLoads(ls, es[..3]) == l3 by { GreedyLoadsPrefix(ls, es, 3); }
    var l4 := GreedyStep(l3, es[3]);
    assert GreedyLoads(ls, es[..4]) == l4 by { GreedyLoadsPrefix(ls, es, 4); }
    assert GreedyLoads(ls, es[..5]) == GreedyStep(l4, es[4]) by { GreedyLoadsPrefix(ls, es, 5); }
    assert es[..5] == es;
  }

  /** The greedy rule on the loads 0, 0, 0 and efforts 3, 5, 2, 4, 1: the
      loads pass through 3,0,0 / 3,5,0 / 3,5,2 / 3,5,6 to 4,5,6. */
  lemma GreedyLoadsScenario(ls: seq<int>, es: seq<int>)
    requires ls == [0, 0, 0] && es == [3, 5, 2, 4, 1]
    ensures GreedyLoads(ls, es) == [4, 5, 6]
  {
    GreedyLoadsFive(ls, es);
    var l1 := GreedyStep(ls, es[0]);
    GreedyStepThree(ls, 0, 0, 0, es[0]);
    var l2 := GreedyStep(l1, es[1]);
    GreedyStepThree(l1, 3, 0, 0, es[1]);
    var l3 := GreedyStep(l2, es[2]);
    GreedyStepThree(l2, 3, 5, 0, es[2]);
    var l4 := GreedyStep(l3, es[3]);
    GreedyStepThree(l3, 3, 5, 2, es[3]);
    GreedyStepThree(l4, 3, 5, 6, es[4]);
  }

  /** Three idle runners receiving efforts 3, 5, 2, 4, 1 in that order end
      with loads 4, 5, 6: the first and last tasks go to the first runner,
      5 to the second, 2 and 4 to the third. */
  lemma GreedyScenario(rs: seq<Runners.Runner>, ts: seq<Tasks.Task>)
    requires |rs| == 3 && forall i :: 0 <= i < 3 ==> rs[i].queue == []
    requires |ts| == 5
    requires ts[0].remaining == 3 && ts[1].remaining == 5 && ts[2].remaining == 2
    requires ts[3].remaining == 4 && ts[4].remaining == 1
    ensures Loads(AssignAll(rs, ts)) == [4, 5, 6]
  {
    assert Loads(rs) == [0, 0, 0] by {
      assert forall i :: 0 <= i < 3 ==> Runners.TotalWork(rs[i]) == 0;
    }
    assert Efforts(ts) == [3, 5, 2, 4, 1];
    GreedyLoadsScenario(Loads(rs), Efforts(ts));
    AssignAllLoads(rs, ts);
  }
}
