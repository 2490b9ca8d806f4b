/** The epoch driver (model/DataCenter.java): runners partitioned into
    servers and racks, a backlog of pending tasks, one temperature and one
    hydrogel level per server, and `runEpoch`, which drains the backlog,
    lets runners decide to sprint, updates the servers, runs the thermal and
    power checks and advances every runner by one epoch.

    The model follows the code as written, including three of its
    placeholders: the drain loop schedules only the first ceil(n/2) pending
    tasks, the temperature update floors at 1.0 so every server overheats,
    and a rack over the power limit sends all of its runners, not only the
    sprinting ones, into recovery. */
module DataCenters {
  import opened Basics
  import Tasks
  import Runners
  import Scheduling

  /** Sprinters a rack tolerates before a power failure. */
  const MaxRackSprints: int := 10
  /** Threshold every runner is built with. */
  const InitialThreshold: real := 0.5
  /** Heating per sprinter, cooling per epoch, hydrogel saturation per
      sprinter and hydrogel recovery per epoch, as in the placeholders. */
  const HeatPerSprinter: real := 0.1
  const Cooling: real := 0.05
  const SaturationPerSprinter: real := 0.05
  const HydrogelRecovery: real := 0.02

  datatype DataCenter = DataCenter(
    procsPerServer: int,
    serversPerRack: int,
    runners: seq<Runners.Runner>,
    backlog: seq<Tasks.Task>,
    serverTemps: seq<real>,
    hydrogel: seq<real>)

  /** Servers used by `n` runners, `procsPerServer` to a server: the
      number of distinct values of `i / procsPerServer` for `0 <= i < n`. */
  function NumServers(n: int, procsPerServer: int): nat
    requires n <= 0 || procsPerServer >= 1
  {
    if n <= 0 then 0 else (n - 1) / procsPerServer + 1
  }

  /** `i / procsPerServer`: the server of runner `i`. */
  function ServerIndex(i: int, procsPerServer: int): int
    requires procsPerServer >= 1
  {
    i / procsPerServer
  }

  /** The lowest-numbered runner of server `s`. */
  function FirstRunnerOf(s: int, procsPerServer: int): int
  {
    s * procsPerServer
  }

  /** The server ids of the runners are exactly `0 .. NumServers - 1`: every
      runner's server is in that range and every id in it is some runner's
      server. So one temperature entry per distinct server, and a hydrogel
      array of that length, give in-bounds indexing for every runner. */
  lemma ServerIdsAreContiguous(n: nat, procsPerServer: int)
    requires n == 0 || procsPerServer >= 1
    ensures forall i :: 0 <= i < n ==> 0 <= ServerIndex(i, procsPerServer) < NumServers(n, procsPerServer)
    ensures forall s :: 0 <= s < NumServers(n, procsPerServer) ==>
              && 0 <= FirstRunnerOf(s, procsPerServer) < n
              && ServerIndex(FirstRunnerOf(s, procsPerServer), procsPerServer) == s
  {
    forall i | 0 <= i < n
      ensures 0 <= ServerIndex(i, procsPerServer) < NumServers(n, procsPerServer)
    {
      DivMonotone(i, n - 1, procsPerServer);
    }
    forall s | 0 <= s < NumServers(n, procsPerServer)
      ensures 0 <= FirstRunnerOf(s, procsPerServer) < n
      ensures ServerIndex(FirstRunnerOf(s, procsPerServer), procsPerServer) == s
    {
      MulDivBound(s, n - 1, procsPerServer);
    }
  }

  lemma MulMonotone(x: int, y: int, d: int)
    requires x <= y && d >= 0
    ensures x * d <= y * d
  {
    assert y * d - x * d == (y - x) * d;
  }

  lemma DivMonotone(a: int, b: int, d: int)
    requires 0 <= a <= b && d >= 1
    ensures 0 <= a / d <= b / d
  {
    var qa, qb := a / d, b / d;
    assert a == qa * d + a % d && 0 <= a % d < d;
    assert b == qb * d + b % d && 0 <= b % d < d;
    assert (qb + 1) * d == qb * d + d;
    if qa > qb {
      MulMonotone(qb + 1, qa, d);
      assert false;
    }
    if qa < 0 {
      MulMonotone(qa, -1, d);
      assert false;
    }
  }

  /** Dividing a multiple of `d` by `d` gives back the factor. */
  lemma DivOfMultiple(s: int, d: int)
    requires d >= 1
    ensures (s * d) / d == s
  {
    var q, r := (s * d) / d, (s * d) % d;
    assert s * d == q * d + r && 0 <= r < d;
    assert (s - q) * d == r;
    if s - q >= 1 {
      MulMonotone(1, s - q, d);
    } else if s - q <= -1 {
      MulMonotone(s - q, -1, d);
    }
  }

  lemma MulDivBound(s: int, m: int, d: int)
    requires d >= 1 && m >= 0 && 0 <= s <= m / d
    ensures 0 <= s * d <= m
    ensures (s * d) / d == s
  {
    MulMonotone(0, s, d);
    MulMonotone(s, m / d, d);
    assert m == (m / d) * d + m % d;
    DivOfMultiple(s, d);
  }

  /** The server a runner was placed on. */
  function ServerOf(r: Runners.Runner): int
  {
    r.serverId
  }

  function RackOf(r: Runners.Runner): int
  {
    r.rackId
  }

  /** The data centre's state invariant: one hydrogel level per server
      temperature, every runner's server in range, every runner valid. */
  predicate WellFormed(dc: DataCenter)
  {
    && |dc.serverTemps| == |dc.hydrogel|
    && Placed(dc.runners, |dc.serverTemps|)
  }

  /** Every runner is valid and sits on one of `n` servers. */
  predicate Placed(rs: seq<Runners.Runner>, n: int)
  {
    forall i :: 0 <= i < |rs| ==> 0 <= rs[i].serverId < n && Runners.Valid(rs[i])
  }

  /** The constructor; runner `i` sits on server `i / procsPerServer`.
      Partition sizes must be positive once there is a runner. A zero size
      divides by zero. Java's division truncates, so a negative
      `procsPerServer` puts the first `|procsPerServer|` runners on server
      0 and yields negative server ids, which index the hydrogel array out
      of bounds in the epoch, once there are more runners than that. Two
      cases the source accepts are excluded here: a negative
      `procsPerServer` with at most `|procsPerServer|` runners, and a
      negative `serversPerRack` (rack ids are only compared). */
  function Create(procsPerServer: int, serversPerRack: int, numRunners: int, initTasks: seq<Tasks.Task>): (dc: DataCenter)
    requires numRunners <= 0 || (procsPerServer >= 1 && serversPerRack >= 1)
    ensures |dc.runners| == (if numRunners > 0 then numRunners else 0)
    ensures forall i :: 0 <= i < |dc.runners| ==>
              && dc.runners[i].id == i
              && dc.runners[i].serverId == i / procsPerServer
              && dc.runners[i].rackId == dc.runners[i].serverId / serversPerRack
              && dc.runners[i].threshold == InitialThreshold
              && dc.runners[i].queue == []
              && !dc.runners[i].sprinting && dc.runners[i].recovery == 0
    ensures |dc.serverTemps| == |dc.hydrogel| == NumServers(numRunners, procsPerServer)
    ensures forall s :: 0 <= s < |dc.serverTemps| ==> dc.serverTemps[s] == 0.0 && dc.hydrogel[s] == 0.0
    ensures dc.backlog == initTasks
    ensures WellFormed(dc)
  {
    var n := if numRunners > 0 then numRunners else 0;
    var servers := NumServers(numRunners, procsPerServer);
    var rs := seq(n, i requires 0 <= i < n =>
                Runners.NewRunner(i, InitialThreshold, ServerIndex(i, procsPerServer),
                                  ServerIndex(i, procsPerServer) / serversPerRack));
    ServerIdsAreContiguous(n, procsPerServer);
    assert forall i :: 0 <= i < n ==> 0 <= rs[i].serverId < servers;
    DataCenter(procsPerServer, serversPerRack, rs, initTasks, seq(servers, _ => 0.0), seq(servers, _ => 0.0))
  }

  /** What the drain loop schedules: the first ceil(n/2) pending tasks, in
      order; the rest stay pending in order. */
  function Drain(rs: seq<Runners.Runner>, backlog: seq<Tasks.Task>): (out: (seq<Runners.Runner>, seq<Tasks.Task>))
    requires |rs| > 0 || |backlog| == 0
    ensures |out.0| == |rs|
    ensures out.0 == Scheduling.AssignAll(rs, backlog[..(|backlog| + 1) / 2])
    ensures out.1 == backlog[(|backlog| + 1) / 2..]
    ensures backlog == backlog[..(|backlog| + 1) / 2] + out.1
    ensures |out.1| == |backlog| / 2
  {
    var k := (|backlog| + 1) / 2;
    assert backlog == backlog[..k] + backlog[k..];
    (Scheduling.AssignAll(rs, backlog[..k]), backlog[k..])
  }

  /** Draining adds exactly the work of the scheduled half of the backlog
      to the runners' total load. */
  lemma DrainAddsWork(rs: seq<Runners.Runner>, backlog: seq<Tasks.Task>)
    requires |rs| > 0 || |backlog| == 0
    ensures Sum(Scheduling.Loads(Drain(rs, backlog).0))
            == Sum(Scheduling.Loads(rs)) + Scheduling.BatchWork(backlog[..(|backlog| + 1) / 2])
  {
    if |rs| > 0 {
      Scheduling.AssignAllAddsWork(rs, backlog[..(|backlog| + 1) / 2]);
    } else {
      assert Drain(rs, backlog).0 == [];
    }
  }

  /** The drain loop as written: an index counts up from 0 against the
      current backlog length while every iteration removes the head task
      and assigns it. The index grows while the list shrinks, so the loop
      stops after ceil(n/2) of n tasks. */
  method DrainLoop(rs: seq<Runners.Runner>, backlog: seq<Tasks.Task>)
    returns (rs': seq<Runners.Runner>, rest: seq<Tasks.Task>)
    requires |rs| > 0 || |backlog| == 0
    ensures rs' == Scheduling.AssignAll(rs, backlog[..(|backlog| + 1) / 2])
    ensures rest == backlog[(|backlog| + 1) / 2..]
    ensures rs' == Drain(rs, backlog).0 && rest == Drain(rs, backlog).1
    ensures |backlog| > 1 ==> |rest| > 0
  {
    var n := |backlog|;
    rs' := rs;
    rest := backlog;
    var i := 0;
    while i < |rest|
      invariant 0 <= i <= n && 2 * i <= n + 1
      invariant |rest| == n - i
      invariant rest == backlog[i..]
      invariant rs' == Scheduling.AssignAll(rs, backlog[..i])
    {
      var t := rest[0];
      assert t == backlog[i] && rest[1..] == backlog[i + 1..];
      rest := rest[1..];
      Scheduling.AssignAllStep(rs, backlog, i);
      rs' := Scheduling.AssignTask(rs', t);
      i := i + 1;
    }
    assert i == (n + 1) / 2;
  }

  /** `computeNewTemperature`: the placeholder floors at 1.0 (it uses
      `max` where a cap was evidently meant), so it never returns less. */
  function NewTemperature(current: real, sprinters: int, hydrogelState: real): (t: real)
    ensures t >= 1.0
    ensures t >= current + sprinters as real * HeatPerSprinter - Cooling
    ensures t == 1.0 || t == current + sprinters as real * HeatPerSprinter - Cooling
  {
    Max(1.0, current + sprinters as real * HeatPerSprinter - Cooling)
  }

  /** `computeNewHydrogelState`; its third argument is unused. */
  function NewHydrogel(current: real, sprinters: int, hydrogelState: real): (h: real)
    ensures 0.0 <= h <= 1.0
    ensures var raw := current + sprinters as real * SaturationPerSprinter - HydrogelRecovery;
            0.0 <= raw <= 1.0 ==> h == raw
    ensures var raw := current + sprinters as real * SaturationPerSprinter - HydrogelRecovery;
            raw < 0.0 ==> h == 0.0
    ensures var raw := current + sprinters as real * SaturationPerSprinter - HydrogelRecovery;
            1.0 < raw ==> h == 1.0
  {
    Clamp(current + sprinters as real * SaturationPerSprinter - HydrogelRecovery, 0.0, 1.0)
  }

  /** Number of sprinting runners whose group (server or rack) is `g`. */
  function Sprinters(rs: seq<Runners.Runner>, group: Runners.Runner -> int, g: int): (c: nat)
    ensures c <= |rs|
    ensures (forall i :: 0 <= i < |rs| ==> !rs[i].sprinting) ==> c == 0
    ensures c > 0 <==> exists i :: 0 <= i < |rs| && rs[i].sprinting && group(rs[i]) == g
  {
    if |rs| == 0 then 0
    else
      var last := rs[|rs| - 1];
      Sprinters(rs[..|rs| - 1], group, g) + (if last.sprinting && group(last) == g then 1 else 0)
  }

  /** Per-server update of the loop at lines 62-89: the new clamped
      temperature and the new hydrogel level of every server. */
  function UpdateServers(temps: seq<real>, hydrogel: seq<real>, rs: seq<Runners.Runner>): (out: (seq<real>, seq<real>))
    requires |temps| == |hydrogel|
    ensures |out.0| == |out.1| == |temps|
    ensures forall s :: 0 <= s < |temps| ==> out.0[s] == 1.0
    ensures forall s :: 0 <= s < |temps| ==> 0.0 <= out.1[s] <= 1.0
    ensures forall s :: 0 <= s < |temps| ==>
              out.1[s] == NewHydrogel(hydrogel[s], Sprinters(rs, ServerOf, s), hydrogel[s])
  {
    var temps' := seq(|temps|, s requires 0 <= s < |temps| =>
                    Clamp(NewTemperature(temps[s], Sprinters(rs, ServerOf, s), hydrogel[s]), 0.0, 1.0));
    var hydrogel' := seq(|temps|, s requires 0 <= s < |temps| =>
                       NewHydrogel(hydrogel[s], Sprinters(rs, ServerOf, s), hydrogel[s]));
    (temps', hydrogel')
  }

  /** Thermal check: every runner on a server at 1.0 or above enters
      cooling recovery. Each server's iteration touches only its own
      runners, so the order of the server loop does not matter. */
  function ThermalCheck(rs: seq<Runners.Runner>, temps: seq<real>): (rs': seq<Runners.Runner>)
    requires forall i :: 0 <= i < |rs| ==> 0 <= rs[i].serverId < |temps|
    ensures |rs'| == |rs|
    ensures forall i :: 0 <= i < |rs| && temps[rs[i].serverId] >= 1.0 ==>
              rs'[i] == Runners.ThermalFailure(rs[i])
    ensures forall i :: 0 <= i < |rs| && temps[rs[i].serverId] < 1.0 ==> rs'[i] == rs[i]
  {
    seq(|rs|, i requires 0 <= i < |rs| =>
      if temps[rs[i].serverId] >= 1.0 then Runners.ThermalFailure(rs[i]) else rs[i])
  }

  /** Power check: a rack with more than `MaxRackSprints` sprinters sends
      every runner in it, sprinting or not, into power recovery. */
  function PowerCheck(rs: seq<Runners.Runner>): (rs': seq<Runners.Runner>)
    ensures |rs'| == |rs|
    ensures forall i :: 0 <= i < |rs| && Sprinters(rs, RackOf, rs[i].rackId) > MaxRackSprints ==>
              && rs'[i] == Runners.PowerFailure(rs[i])
              && rs'[i].recovery >= Runners.PowerEpochs
              && !rs'[i].sprinting
              && rs'[i].queue == rs[i].queue
    ensures forall i :: 0 <= i < |rs| && Sprinters(rs, RackOf, rs[i].rackId) <= MaxRackSprints ==>
              rs'[i] == rs[i]
    ensures (forall i :: 0 <= i < |rs| ==> !rs[i].sprinting) ==> rs' == rs
  {
    seq(|rs|, i requires 0 <= i < |rs| =>
      if Sprinters(rs, RackOf, rs[i].rackId) > MaxRackSprints then Runners.PowerFailure(rs[i]) else rs[i])
  }

  /** The positions of the sprinting runners of group `g`. */
  function SprinterIndices(rs: seq<Runners.Runner>, group: Runners.Runner -> int, g: int): set<int>
  {
    set i | 0 <= i < |rs| && rs[i].sprinting && group(rs[i]) == g
  }

  /** The sprinter positions of a list are those of its front plus,
      possibly, its last position. */
  lemma SprinterIndicesLast(rs: seq<Runners.Runner>, group: Runners.Runner -> int, g: int)
    requires |rs| > 0
    ensures var n := |rs| - 1;
            var front := SprinterIndices(rs[..n], group, g);
            && n !in front
            && SprinterIndices(rs, group, g)
               == front + (if rs[n].sprinting && group(rs[n]) == g then {n} else {})
  {
    var n := |rs| - 1;
    assert forall i :: 0 <= i < n ==> rs[..n][i] == rs[i];
  }

  /** The running count is the number of sprinting members of the group. */
  lemma {:induction false} SprintersCountsIndices(rs: seq<Runners.Runner>, group: Runners.Runner -> int, g: int)
    ensures Sprinters(rs, group, g) == |SprinterIndices(rs, group, g)|
    decreases |rs|
  {
    if |rs| == 0 {
      assert SprinterIndices(rs, group, g) == {};
    } else {
      var n := |rs| - 1;
      SprintersCountsIndices(rs[..n], group, g);
      SprinterIndicesLast(rs, group, g);
    }
  }

  /** A runner that can only stop sprinting, in the same group, never
      raises its group's count. */
  lemma {:induction false} SprintersMonotone(rs: seq<Runners.Runner>, rs': seq<Runners.Runner>,
                                             group: Runners.Runner -> int, g: int)
    requires |rs'| == |rs|
    requires forall i :: 0 <= i < |rs| ==> group(rs'[i]) == group(rs[i])
    requires forall i :: 0 <= i < |rs| && rs'[i].sprinting ==> rs[i].sprinting
    ensures Sprinters(rs', group, g) <= Sprinters(rs, group, g)
    decreases |rs|
  {
    if |rs| > 0 {
      var n := |rs| - 1;
      SprintersMonotone(rs[..n], rs'[..n], group, g);
    }
  }

  /** After the power check no rack holds more sprinters than the ceiling,
      and an overloaded rack holds none. */
  lemma PowerCheckRespectsCeiling(rs: seq<Runners.Runner>, g: int)
    ensures Sprinters(PowerCheck(rs), RackOf, g) <= MaxRackSprints
    ensures Sprinters(rs, RackOf, g) > MaxRackSprints ==> Sprinters(PowerCheck(rs), RackOf, g) == 0
  {
    var out := PowerCheck(rs);
    if Sprinters(rs, RackOf, g) > MaxRackSprints {
      assert forall i :: 0 <= i < |out| && RackOf(out[i]) == g ==> !out[i].sprinting;
    } else {
      SprintersMonotone(rs, out, RackOf, g);
    }
  }

  /** The sprint decisions of all runners, each with its own utility draw. */
  function EvaluateAll(rs: seq<Runners.Runner>, draws: seq<real>): (rs': seq<Runners.Runner>)
    requires |draws| == |rs|
    ensures |rs'| == |rs|
    ensures forall i :: 0 <= i < |rs| ==> rs'[i] == Runners.EvaluateSprint(rs[i], draws[i])
  {
    seq(|rs|, i requires 0 <= i < |rs| => Runners.EvaluateSprint(rs[i], draws[i]))
  }

  /** The last loop: every runner advances its head task and ages its
      recovery counter. */
  function WorkAll(rs: seq<Runners.Runner>): (rs': seq<Runners.Runner>)
    ensures |rs'| == |rs|
    ensures forall i :: 0 <= i < |rs| ==> rs'[i] == Runners.UpdateState(Runners.ExecuteEpoch(rs[i]))
  {
    seq(|rs|, i requires 0 <= i < |rs| => Runners.UpdateState(Runners.ExecuteEpoch(rs[i])))
  }

  /** `runEpoch`. `draws[i]` is runner `i`'s utility draw. An empty runner
      list with pending tasks makes the scheduler throw, hence the
      precondition. */
  function RunEpoch(dc: DataCenter, draws: seq<real>): (dc': DataCenter)
    requires WellFormed(dc)
    requires |draws| == |dc.runners|
    requires |dc.runners| > 0 || |dc.backlog| == 0
    ensures WellFormed(dc')
    ensures |dc'.runners| == |dc.runners|
    ensures dc'.procsPerServer == dc.procsPerServer && dc'.serversPerRack == dc.serversPerRack
    ensures dc'.backlog == dc.backlog[(|dc.backlog| + 1) / 2..]
    ensures |dc'.serverTemps| == |dc.serverTemps|
    ensures forall s :: 0 <= s < |dc'.serverTemps| ==> dc'.serverTemps[s] == 1.0
    ensures forall s :: 0 <= s < |dc'.hydrogel| ==> 0.0 <= dc'.hydrogel[s] <= 1.0
    ensures var decided := EvaluateAll(Drain(dc.runners, dc.backlog).0, draws);
            && |dc'.hydrogel| == |dc.hydrogel|
            && forall s :: 0 <= s < |dc.hydrogel| ==>
                 dc'.hydrogel[s] == NewHydrogel(dc.hydrogel[s], Sprinters(decided, ServerOf, s), dc.hydrogel[s])
  {
    var n := |dc.serverTemps|;
    var drained := Drain(dc.runners, dc.backlog);
    DrainKeepsPlacement(dc.runners, dc.backlog, n);
    var decided := EvaluateAll(drained.0, draws);
    EvaluateKeepsPlacement(drained.0, draws, n);
    var servers := UpdateServers(dc.serverTemps, dc.hydrogel, decided);
    var cooled := ThermalCheck(decided, servers.0);
    ChecksKeepPlacement(decided, servers.0);
    var powered := PowerCheck(cooled);
    ChecksKeepPlacement(cooled, servers.0);
    WorkKeepsPlacement(powered, n);
    dc.(runners := WorkAll(powered), backlog := drained.1, serverTemps := servers.0, hydrogel := servers.1)
  }

  lemma DrainKeepsPlacement(rs: seq<Runners.Runner>, backlog: seq<Tasks.Task>, n: int)
    requires |rs| > 0 || |backlog| == 0
    requires Placed(rs, n)
    ensures Placed(Drain(rs, backlog).0, n)
  {
    var out := Drain(rs, backlog).0;
    assert forall i :: 0 <= i < |rs| ==> out[i] == rs[i].(queue := out[i].queue);
  }

  lemma EvaluateKeepsPlacement(rs: seq<Runners.Runner>, draws: seq<real>, n: int)
    requires |draws| == |rs| && Placed(rs, n)
    ensures Placed(EvaluateAll(rs, draws), n)
  {
  }

  lemma ChecksKeepPlacement(rs: seq<Runners.Runner>, temps: seq<real>)
    requires Placed(rs, |temps|)
    ensures Placed(ThermalCheck(rs, temps), |temps|)
    ensures Placed(PowerCheck(rs), |temps|)
  {
  }

  lemma WorkKeepsPlacement(rs: seq<Runners.Runner>, n: int)
    requires Placed(rs, n)
    ensures Placed(WorkAll(rs), n)
  {
  }

  /** With every server at 1.0 or above, the thermal check sends every
      runner into cooling recovery. */
  lemma HotServersStopSprinting(rs: seq<Runners.Runner>, temps: seq<real>)
    requires Placed(rs, |temps|)
    requires forall s :: 0 <= s < |temps| ==> temps[s] == 1.0
    ensures forall i :: 0 <= i < |rs| ==> ThermalCheck(rs, temps)[i] == Runners.ThermalFailure(rs[i])
    ensures forall i :: 0 <= i < |rs| ==> !ThermalCheck(rs, temps)[i].sprinting
  {
  }

  /** No sprinter in the list means no sprinter in any group. */
  lemma NoSprinters(rs: seq<Runners.Runner>)
    requires forall i :: 0 <= i < |rs| ==> !rs[i].sprinting
    ensures forall g :: Sprinters(rs, RackOf, g) == 0
    ensures PowerCheck(rs) == rs
  {
  }

  /** The runners of an epoch, stage by stage: after the thermal check each
      is the drained runner in cooling recovery, the power check changes
      nothing, and the last loop works on that list. */
  lemma EpochRunners(dc: DataCenter, draws: seq<real>)
    requires WellFormed(dc)
    requires |draws| == |dc.runners|
    requires |dc.runners| > 0 || |dc.backlog| == 0
    ensures var drained := Drain(dc.runners, dc.backlog).0;
            var decided := EvaluateAll(drained, draws);
            var cooled := ThermalCheck(decided, UpdateServers(dc.serverTemps, dc.hydrogel, decided).0);
            && |cooled| == |drained|
            && (forall i :: 0 <= i < |cooled| ==> cooled[i] == Runners.ThermalFailure(decided[i]))
            && (forall i :: 0 <= i < |cooled| ==> !cooled[i].sprinting)
            && (forall g :: Sprinters(cooled, RackOf, g) == 0)
            && PowerCheck(cooled) == cooled
            && RunEpoch(dc, draws).runners == WorkAll(cooled)
  {
    var n := |dc.serverTemps|;
    var drained := Drain(dc.runners, dc.backlog);
    DrainKeepsPlacement(dc.runners, dc.backlog, n);
    var decided := EvaluateAll(drained.0, draws);
    EvaluateKeepsPlacement(drained.0, draws, n);
    var servers := UpdateServers(dc.serverTemps, dc.hydrogel, decided);
    var cooled := ThermalCheck(decided, servers.0);
    HotServersStopSprinting(decided, servers.0);
    NoSprinters(cooled);
  }

  /** Every runner leaves the epoch in cooling recovery and not sprinting,
      with its identity, placement and threshold unchanged. */
  lemma EpochCoolsEveryRunner(dc: DataCenter, draws: seq<real>, i: int)
    requires WellFormed(dc)
    requires |draws| == |dc.runners|
    requires |dc.runners| > 0 || |dc.backlog| == 0
    requires 0 <= i < |dc.runners|
    ensures var r' := RunEpoch(dc, draws).runners[i];
            && !r'.sprinting
            && r'.recovery >= Runners.CoolingEpochs - 1
            && r'.id == dc.runners[i].id
            && r'.serverId == dc.runners[i].serverId
            && r'.rackId == dc.runners[i].rackId
            && r'.threshold == dc.runners[i].threshold
  {
    var drained := Drain(dc.runners, dc.backlog).0;
    var decided := EvaluateAll(drained, draws);
    var cooled := ThermalCheck(decided, UpdateServers(dc.serverTemps, dc.hydrogel, decided).0);
    EpochRunners(dc, draws);
    assert drained[i] == dc.runners[i].(queue := drained[i].queue);
    assert RunEpoch(dc, draws).runners[i] == Runners.UpdateState(Runners.ExecuteEpoch(cooled[i]));
  }

  /** Because every server ends at 1.0, the thermal check puts every runner
      into recovery and stops all sprinting; the rack count built afterwards
      is therefore zero everywhere and the power branch cannot fire. */
  lemma PowerBranchUnreachable(dc: DataCenter, draws: seq<real>)
    requires WellFormed(dc)
    requires |draws| == |dc.runners|
    requires |dc.runners| > 0 || |dc.backlog| == 0
    ensures var drained := Drain(dc.runners, dc.backlog);
            var decided := EvaluateAll(drained.0, draws);
            var servers := UpdateServers(dc.serverTemps, dc.hydrogel, decided);
            var cooled := ThermalCheck(decided, servers.0);
            && (forall k :: Sprinters(cooled, RackOf, k) == 0)
            && PowerCheck(cooled) == cooled
  {
    EpochRunners(dc, draws);
  }

  /** Under the thermal check every runner works unsprinted: its queue after
      the epoch is what one ordinary epoch does to its queue after the
      drain, so a head task with effort left loses exactly one unit. */
  lemma EpochAdvancesHeadByOne(dc: DataCenter, draws: seq<real>, i: int)
    requires WellFormed(dc)
    requires |draws| == |dc.runners|
    requires |dc.runners| > 0 || |dc.backlog| == 0
    requires 0 <= i < |dc.runners|
    ensures var r := Drain(dc.runners, dc.backlog).0[i];
            var r' := RunEpoch(dc, draws).runners[i];
            && r'.queue == Runners.ExecuteEpoch(r.(sprinting := false)).queue
            && (|r.queue| > 0 && r.queue[0].state != Tasks.Completed && r.queue[0].remaining >= 1 ==>
                  Runners.TotalWork(r') == Runners.TotalWork(r) - 1)
  {
    var drained := Drain(dc.runners, dc.backlog).0;
    var decided := EvaluateAll(drained, draws);
    var cooled := ThermalCheck(decided, UpdateServers(dc.serverTemps, dc.hydrogel, decided).0);
    EpochRunners(dc, draws);
    var r := drained[i];
    assert cooled[i] == r.(sprinting := false, recovery := cooled[i].recovery);
    assert RunEpoch(dc, draws).runners[i] == Runners.UpdateState(Runners.ExecuteEpoch(cooled[i]));
    UnsprintedStep(r, cooled[i]);
  }

  /** One unsprinted epoch of a runner whose recovery counter may differ
      from `r`'s: the queue moves as in an ordinary epoch of `r`. */
  lemma UnsprintedStep(r: Runners.Runner, c: Runners.Runner)
    requires c == r.(sprinting := false, recovery := c.recovery)
    ensures var r' := Runners.UpdateState(Runners.ExecuteEpoch(c));
            && r'.queue == Runners.ExecuteEpoch(r.(sprinting := false)).queue
            && (|r.queue| > 0 && r.queue[0].state != Tasks.Completed && r.queue[0].remaining >= 1 ==>
                  Runners.TotalWork(r') == Runners.TotalWork(r) - 1)
  {
    var x := Runners.ExecuteEpoch(c);
    assert x.queue == Runners.ExecuteEpoch(r.(sprinting := false)).queue;
    if |r.queue| > 0 && r.queue[0].state != Tasks.Completed && r.queue[0].remaining >= 1 {
      assert Tasks.ExecuteEpoch(r.queue[0], false).remaining == r.queue[0].remaining - 1;
      assert Runners.TotalWork(x) == Runners.TotalWork(r) - 1;
    }
  }

  /** `addTask`: a null task is ignored, any other joins the backlog tail. */
  function AddTask(dc: DataCenter, task: Option<Tasks.Task>): (dc': DataCenter)
    ensures task.None? ==> dc' == dc
    ensures task.Some? ==> dc'.backlog == dc.backlog + [task.value]
    ensures dc' == dc.(backlog := dc'.backlog)
  {
    match task
    case None => dc
    case Some(t) => dc.(backlog := dc.backlog + [t])
  }

  /** `addTasks`: a null or empty list is ignored, otherwise the tasks join
      the backlog tail in order. */
  function AddTasks(dc: DataCenter, tasks: Option<seq<Tasks.Task>>): (dc': DataCenter)
    ensures tasks.None? ==> dc' == dc
    ensures tasks.Some? ==> dc'.backlog == dc.backlog + tasks.value
    ensures dc' == dc.(backlog := dc'.backlog)
  {
    if tasks.Some? && |tasks.value| > 0 then dc.(backlog := dc.backlog + tasks.value) else dc
  }

  /** `addTasks(list)` is the same as `addTask` on each element in order. */
  lemma {:induction false} AddTasksIsRepeatedAddTask(dc: DataCenter, ts: seq<Tasks.Task>)
    ensures AddTasks(dc, Some(ts)) == AddEach(dc, ts)
    decreases |ts|
  {
    if |ts| > 0 {
      AddTasksIsRepeatedAddTask(dc, ts[..|ts| - 1]);
      assert ts == ts[..|ts| - 1] + [ts[|ts| - 1]];
    }
  }

  /** `addTask` applied to each element of `ts` in turn. */
  function AddEach(dc: DataCenter, ts: seq<Tasks.Task>): DataCenter
  {
    if |ts| == 0 then dc else AddTask(AddEach(dc, ts[..|ts| - 1]), Some(ts[|ts| - 1]))
  }
}
