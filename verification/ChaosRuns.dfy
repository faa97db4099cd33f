/**
 What every run of the chaos machine comes to: the replicas of an instance, its incidents, what becomes of a closed
 experiment, and the operations themselves as runs of one uninterrupted task.
 */
module ChaosRuns {
  import opened Common
  import opened Chaos
  import opened ChaosInterleaving

  // ---------- replicas and incidents ----------

  /** The last successful scaling of an instance. */
  datatype Scaling = Untouched | ScaledDown(target: int) | BackToMinimum

  predicate AtMinimum(last: Scaling, replicasMin: int) {
    last.ScaledDown? ==> last.target == replicasMin
  }

  ghost function NextScaling(c: Config, s: Step, i: Id, last: Scaling): Scaling
    requires Enabled(c, s)
  {
    if !(s.Advance? && s.ok) then last else
    match c.tasks[s.task]
    case Starting(_, _, row, target, stage) =>
      if stage == Begun && row.kind == ScaleDown && row.instance == i then ScaledDown(target) else last
    case Reverting(_, _, loaded, stage) =>
      if stage == Loaded && loaded.kind == ScaleDown && loaded.instance == i then BackToMinimum else last
  }

  ghost function LastScaling(c: Config, steps: seq<Step>, i: Id, last: Scaling): Scaling
    requires IsRun(c, steps)
    decreases |steps|
  {
    if |steps| == 0 then last else LastScaling(Apply(c, steps[0]), steps[1..], i, NextScaling(c, steps[0], i, last))
  }

  ghost predicate Tells(c: Config, i: Id, last: Scaling) {
    i in c.p.instances && (OffMinimum(c.p, i) <==> !AtMinimum(last, c.p.instances[i].replicasMin))
  }

  lemma StartScales(c: Config, t: Id, ok: bool, i: Id, last: Scaling)
    requires ValidPlatform(c.p) && t in c.tasks && c.tasks[t].Starting? && ValidTask(c.p, c.tasks[t])
      && Tells(c, i, last)
    ensures Tells(AdvanceStart(c, t, ok), i, NextScaling(c, Advance(t, ok), i, last))
  {}

  lemma RevertScales(c: Config, t: Id, ok: bool, i: Id, last: Scaling)
    requires ValidPlatform(c.p) && t in c.tasks && c.tasks[t].Reverting? && ValidTask(c.p, c.tasks[t])
      && Tells(c, i, last)
    ensures Tells(AdvanceRevert(c, t, ok), i, NextScaling(c, Advance(t, ok), i, last))
  {}

  lemma StepScales(c: Config, s: Step, i: Id, last: Scaling)
    requires Inv(c) && Enabled(c, s) && Tells(c, i, last)
    ensures Tells(Apply(c, s), i, NextScaling(c, s, i, last))
  {
    if s.Advance? {
      assert ValidTask(c.p, c.tasks[s.task]);
      if c.tasks[s.task].Starting? {
        StartScales(c, s.task, s.ok, i, last);
      } else {
        RevertScales(c, s.task, s.ok, i, last);
      }
    }
  }

  lemma {:induction false} RunScales(c: Config, steps: seq<Step>, i: Id, last: Scaling)
    requires Inv(c) && IsRun(c, steps) && Tells(c, i, last)
    ensures Tells(After(c, steps), i, LastScaling(c, steps, i, last))
    decreases |steps|
  {
    if |steps| > 0 {
      StepScales(c, steps[0], i, last);
      StepKeepsInv(c, steps[0]);
      RunScales(Apply(c, steps[0]), steps[1..], i, NextScaling(c, steps[0], i, last));
    }
  }

  /**
   In every run, whatever the interleaving and whatever fails, an instance has its minimum of replicas exactly
   when nothing scaled it, or the last call that did was a revert's, or was a start's to that very number.
   */
  lemma ReplicasExactly(c: Config, steps: seq<Step>, i: Id)
    requires Initial(c) && IsRun(c, steps) && i in c.p.instances
    ensures var (d, replicasMin) := (After(c, steps), c.p.instances[i].replicasMin);
      && i in d.p.replicas
      && (d.p.replicas[i] == replicasMin <==> AtMinimum(LastScaling(c, steps, i, Untouched), replicasMin))
  {
    InitialInv(c);
    RunKeepsInv(c, steps);
    RunKeepsInstances(c, steps);
    RunScales(c, steps, i, Untouched);
    assert After(c, steps).p.replicas.Keys == After(c, steps).p.instances.Keys;
  }

  /**
   Once nothing is in flight, an instance without a running scale-down has its minimum of replicas exactly when
   it is not stranded.
   */
  lemma QuiescentReplicas(c: Config, steps: seq<Step>, i: Id)
    requires Initial(c) && IsRun(c, steps) && i in c.p.instances
    ensures var d := After(c, steps);
      && i in d.p.replicas && i in d.p.instances
      && (d.tasks == map[]
          && (forall exp :: RunningOn(d, i, exp) ==> d.p.experiments[exp].kind != ScaleDown)
          ==> (d.p.replicas[i] == d.p.instances[i].replicasMin <==> i !in d.stranded))
  {
    InitialInv(c);
    RunKeepsInv(c, steps);
    RunKeepsInstances(c, steps);
    var d := After(c, steps);
    assert d.p.replicas.Keys == d.p.instances.Keys;
    if d.tasks == map[] && HeldDown(d, i) {
      assert forall t :: !HeldByStart(d, i, t);
      var exp :| HeldByRow(d, i, exp);
      assert RunningOn(d, i, exp);
    }
  }

  lemma {:induction false} RunKeepsInstances(c: Config, steps: seq<Step>)
    requires IsRun(c, steps)
    ensures After(c, steps).p.instances == c.p.instances
    decreases |steps|
  {
    if |steps| > 0 {
      RunKeepsInstances(Apply(c, steps[0]), steps[1..]);
    }
  }

  /** A run in which no call fails and no task dies strands nothing. */
  lemma {:induction false} ReliableRunStrandsNothing(c: Config, steps: seq<Step>)
    requires IsRun(c, steps) && forall s <- steps :: Reliable(s)
    requires c.stranded == {} && c.unresolved == {}
    ensures After(c, steps).stranded == {} && After(c, steps).unresolved == {}
    decreases |steps|
  {
    if |steps| > 0 {
      assert Reliable(steps[0]);
      ReliableRunStrandsNothing(Apply(c, steps[0]), steps[1..]);
    }
  }

  /** Hence in a run without failures every instance is back at its minimum. */
  lemma ReliableReplicas(c: Config, steps: seq<Step>, i: Id)
    requires Initial(c) && IsRun(c, steps) && forall s <- steps :: Reliable(s)
    requires i in c.p.instances && After(c, steps).tasks == map[]
    requires forall exp :: RunningOn(After(c, steps), i, exp) ==> After(c, steps).p.experiments[exp].kind != ScaleDown
    ensures i in After(c, steps).p.replicas
    ensures After(c, steps).p.replicas[i] == c.p.instances[i].replicasMin
  {
    QuiescentReplicas(c, steps, i);
    ReliableRunStrandsNothing(c, steps);
    RunKeepsInstances(c, steps);
  }

  /**
   In a run without failures, an open CHAOS incident means that an experiment runs on the instance or that a
   start or revert of one is in flight.
   */
  lemma OpenIncidentIsExplained(c: Config, steps: seq<Step>, k: Id)
    requires Initial(c) && IsRun(c, steps) && forall s <- steps :: Reliable(s)
    requires k in After(c, steps).p.incidents && After(c, steps).p.incidents[k].resolvedAt.None?
    ensures UnderTest(After(c, steps), After(c, steps).p.incidents[k].instance)
  {
    InitialInv(c);
    RunKeepsInv(c, steps);
    ReliableRunStrandsNothing(c, steps);
  }

  /** Row facts that hold in every reachable state. */
  lemma ReachableRows(c: Config, steps: seq<Step>, id: Id)
    requires Initial(c) && IsRun(c, steps) && id in After(c, steps).p.experiments
    ensures var e := After(c, steps).p.experiments[id];
      && (e.status == Running <==> e.endedAt.None?)
      && (e.status == Running ==> e.revertAt.Some? && 5 <= e.revertAt.value - e.startedAt <= 300)
      && (e.status == Completed && e.revertAt.Some? ==> e.endedAt.Some? && e.endedAt.value >= e.revertAt.value)
  {
    InitialInv(c);
    RunKeepsInv(c, steps);
  }

  lemma StepKeepsClosed(c: Config, s: Step, id: Id)
    requires ValidTasks(c) && Enabled(c, s) && id in c.p.experiments && c.p.experiments[id].status != Running
    ensures id in Apply(c, s).p.experiments && Apply(c, s).p.experiments[id].status != Running
  {
    if s.Advance? { assert ValidTask(c.p, c.tasks[s.task]); }
  }

  /** An experiment that left `running` stays there, even when two tasks close it. */
  lemma {:induction false} ClosedStaysClosed(c: Config, steps: seq<Step>, id: Id)
    requires Inv(c) && IsRun(c, steps)
    requires id in c.p.experiments && c.p.experiments[id].status != Running
    ensures id in After(c, steps).p.experiments && After(c, steps).p.experiments[id].status != Running
    decreases |steps|
  {
    if |steps| > 0 {
      StepKeepsClosed(c, steps[0], id);
      StepKeepsInv(c, steps[0]);
      ClosedStaysClosed(Apply(c, steps[0]), steps[1..], id);
    }
  }

  // ---------- closed rows ----------

  /** A revert of `exp` that has not yet written its row. */
  ghost predicate WillClose(c: Config, exp: Id, t: Id) {
    t in c.tasks && c.tasks[t].Reverting? && c.tasks[t].exp == exp && c.tasks[t].revertStage != Closed
  }

  ghost predicate Untouchable(c: Config, exp: Id) {
    exp in c.p.experiments && c.p.experiments[exp].status != Running && forall t :: !WillClose(c, exp, t)
  }

  lemma StartKeepsRow(c: Config, t: Id, ok: bool, exp: Id)
    requires t in c.tasks && c.tasks[t].Starting? && ValidTask(c.p, c.tasks[t]) && Untouchable(c, exp)
    ensures var d := AdvanceStart(c, t, ok); Untouchable(d, exp) && d.p.experiments[exp] == c.p.experiments[exp]
  {
    forall u ensures !WillClose(AdvanceStart(c, t, ok), exp, u) { assert !WillClose(c, exp, u); }
  }

  lemma RevertKeepsRow(c: Config, t: Id, ok: bool, exp: Id)
    requires t in c.tasks && c.tasks[t].Reverting? && Untouchable(c, exp)
    ensures var d := AdvanceRevert(c, t, ok); Untouchable(d, exp) && d.p.experiments[exp] == c.p.experiments[exp]
  {
    assert !WillClose(c, exp, t);
    forall u ensures !WillClose(AdvanceRevert(c, t, ok), exp, u) { assert !WillClose(c, exp, u); }
  }

  lemma QuietKeepsRow(c: Config, s: Step, exp: Id)
    requires Enabled(c, s) && !s.Advance? && Untouchable(c, exp)
    ensures var d := Apply(c, s); Untouchable(d, exp) && d.p.experiments[exp] == c.p.experiments[exp]
  {
    forall u ensures !WillClose(Apply(c, s), exp, u) { assert !WillClose(c, exp, u); }
  }

  lemma StepKeepsRow(c: Config, s: Step, exp: Id)
    requires ValidTasks(c) && Enabled(c, s) && Untouchable(c, exp)
    ensures var d := Apply(c, s); Untouchable(d, exp) && d.p.experiments[exp] == c.p.experiments[exp]
  {
    if s.Advance? {
      assert ValidTask(c.p, c.tasks[s.task]);
      if c.tasks[s.task].Starting? {
        StartKeepsRow(c, s.task, s.ok, exp);
      } else {
        RevertKeepsRow(c, s.task, s.ok, exp);
      }
    } else {
      QuietKeepsRow(c, s, exp);
    }
  }

  lemma {:induction false} RowIsFrozen(c: Config, exp: Id, steps: seq<Step>)
    requires Inv(c) && IsRun(c, steps) && Untouchable(c, exp)
    ensures exp in After(c, steps).p.experiments && After(c, steps).p.experiments[exp] == c.p.experiments[exp]
    decreases |steps|
  {
    if |steps| > 0 {
      StepKeepsRow(c, steps[0], exp);
      StepKeepsInv(c, steps[0]);
      RowIsFrozen(Apply(c, steps[0]), exp, steps[1..]);
    }
  }

  /** A revert that has not yet written the row can still do so, with its own status and a later time. */
  lemma RowCanChange(c: Config, exp: Id, t: Id) returns (steps: seq<Step>)
    requires Inv(c) && exp in c.p.experiments && WillClose(c, exp, t)
    ensures IsRun(c, steps) && exp in After(c, steps).p.experiments
    ensures After(c, steps).p.experiments[exp] != c.p.experiments[exp]
    ensures After(c, steps).p.experiments[exp].status == c.tasks[t].final
  {
    var wait := Pass(if c.p.experiments[exp].endedAt == Some(c.p.now) then 1 else 0);
    var c1 := Apply(c, wait);
    var go := Advance(t, true);
    var c2 := Apply(c1, go);
    if c.tasks[t].revertStage == Restored {
      RunCons(c1, go, []);
      RunCons(c, wait, [go] + []);
      steps := [wait] + ([go] + []);
    } else {
      assert ValidTask(c.p, c.tasks[t]);
      RunCons(c2, go, []);
      RunCons(c1, go, [go] + []);
      RunCons(c, wait, [go] + ([go] + []));
      steps := [wait] + ([go] + ([go] + []));
    }
  }

  lemma RunCons(c: Config, s: Step, rest: seq<Step>)
    requires Enabled(c, s) && IsRun(Apply(c, s), rest)
    ensures IsRun(c, [s] + rest) && After(c, [s] + rest) == After(Apply(c, s), rest)
  {
    assert ([s] + rest)[1..] == rest;
  }

  /** A closed row stays as it is in every run exactly when no revert that has yet to write it is in flight. */
  lemma ClosedRowIsFrozenExactly(c: Config, exp: Id)
    requires Inv(c) && exp in c.p.experiments && c.p.experiments[exp].status != Running
    ensures (forall t :: !WillClose(c, exp, t)) <==>
      forall steps :: IsRun(c, steps) ==>
        exp in After(c, steps).p.experiments && After(c, steps).p.experiments[exp] == c.p.experiments[exp]
  {
    if t :| WillClose(c, exp, t) {
      var steps := RowCanChange(c, exp, t);
      assert IsRun(c, steps);
    } else {
      forall steps | IsRun(c, steps)
        ensures exp in After(c, steps).p.experiments && After(c, steps).p.experiments[exp] == c.p.experiments[exp]
      {
        RowIsFrozen(c, exp, steps);
      }
    }
  }

  lemma FinishRevert(c: Config, t: Id) returns (steps: seq<Step>)
    requires t in c.tasks && c.tasks[t].Reverting? && c.tasks[t].revertStage == Loaded
    requires c.tasks[t].exp in c.p.experiments
    ensures IsRun(c, steps)
    ensures var d := After(c, steps);
      && d.tasks == Remove(c.tasks, t) && c.tasks[t].exp in d.p.experiments
      && d.p.experiments[c.tasks[t].exp].status == c.tasks[t].final
  {
    var go := Advance(t, true);
    var c1 := Apply(c, go);
    var c2 := Apply(c1, go);
    RunCons(c2, go, []);
    RunCons(c1, go, [go] + []);
    RunCons(c, go, [go] + ([go] + []));
    steps := [go] + ([go] + ([go] + []));
    assert After(c, steps).tasks == Remove(c.tasks, t);
  }

  /** Such races exist: any running experiment can be cancelled by its user and then end `completed`. */
  lemma CancelledCanEndCompleted(c: Config, exp: Id, t: Id, u: Id) returns (cancel: seq<Step>, rest: seq<Step>)
    requires Inv(c) && IsRunning(c.p, exp) && t !in c.tasks && u !in c.tasks && t != u
    ensures IsRun(c, cancel)
    ensures var d := After(c, cancel);
      && t !in d.tasks && exp in d.p.experiments && d.p.experiments[exp].status == Cancelled
      && IsRun(d, rest) && exp in After(d, rest).p.experiments && After(d, rest).p.experiments[exp].status == Completed
  {
    var (wait, mine, worker) := (Pass(300), BeginCancel(t, exp), BeginDue(u, exp));
    var c1 := Apply(c, wait);
    assert ValidRow(c.p, c.p.experiments[exp]);
    var c2 := Apply(c1, mine);
    var c3 := Apply(c2, worker);
    var finish := FinishRevert(c3, t);
    RunCons(c2, worker, finish);
    RunCons(c1, mine, [worker] + finish);
    RunCons(c, wait, [mine] + ([worker] + finish));
    cancel := [wait] + ([mine] + ([worker] + finish));
    RunKeepsInv(c, cancel);
    rest := RowCanChange(After(c, cancel), exp, u);
  }

  // ---------- the uninterrupted operations are runs of this machine ----------

  ghost function RevertSteps(t: Id, exp: Id, final: Status): seq<Step> {
    [if final == Completed then BeginDue(t, exp) else BeginCancel(t, exp),
     Advance(t, true), Advance(t, true), Advance(t, true)]
  }

  /** `Revert`, which the service is proved to perform, is the run of one task that nobody interrupts. */
  lemma RevertIsARun(c: Config, t: Id, exp: Id, final: Status)
    requires Inv(c) && c.tasks == map[] && IsRunning(c.p, exp) && final != Running
    requires final == Completed ==> c.p.experiments[exp].revertAt.value <= c.p.now
    ensures var steps := RevertSteps(t, exp, final);
      && IsRun(c, steps)
      && After(c, steps).p == Revert(c.p, exp, final) && After(c, steps).tasks == map[]
      && After(c, steps).stranded <= c.stranded && After(c, steps).unresolved <= c.unresolved
  {
    var steps := RevertSteps(t, exp, final);
    var c1 := Apply(c, steps[0]);
    var c2 := Apply(c1, steps[1]);
    var c3 := Apply(c2, steps[2]);
    var c4 := Apply(c3, steps[3]);
    UnfoldFour(c, steps, c1, c2, c3, c4);
    assert c4.tasks == map[];
  }

  lemma UnfoldFour(c: Config, steps: seq<Step>, c1: Config, c2: Config, c3: Config, c4: Config)
    requires |steps| == 4
    requires Enabled(c, steps[0]) && c1 == Apply(c, steps[0])
    requires Enabled(c1, steps[1]) && c2 == Apply(c1, steps[1])
    requires Enabled(c2, steps[2]) && c3 == Apply(c2, steps[2])
    requires Enabled(c3, steps[3]) && c4 == Apply(c3, steps[3])
    ensures IsRun(c, steps) && After(c, steps) == c4
  {
    var (s1, s2, s3, s4) := (steps[1..], steps[2..], steps[3..], steps[4..]);
    assert s1[1..] == s2 && s2[1..] == s3 && s3[1..] == s4 && s4 == [];
    assert IsRun(c3, s3) && After(c3, s3) == c4;
    assert IsRun(c2, s2) && After(c2, s2) == c4;
    assert IsRun(c1, s1) && After(c1, s1) == c4;
  }

  /** `Start` likewise, for a request the service accepts. */
  lemma StartIsARun(c: Config, t: Id, id: Id, incident: Id, instance: Id, kind: Kind, req: Request)
    requires c.tasks == map[] && Enabled(c, BeginStart(t, id, incident, instance, kind, req))
    ensures var begin, go := BeginStart(t, id, incident, instance, kind, req), Advance(t, true);
      var steps := if kind == PodKill then [begin, go, go] else [begin, go, go, go];
      && IsRun(c, steps)
      && var d := After(c, steps);
      && d.p == Start(c.p, id, incident, instance, kind, req) && d.tasks == map[]
      && d.stranded <= c.stranded && d.unresolved == c.unresolved
  {
    var begin, go := BeginStart(t, id, incident, instance, kind, req), Advance(t, true);
    var c1 := Apply(c, begin);
    var c2 := Apply(c1, go);
    var c3 := Apply(c2, go);
    if kind == PodKill {
      UnfoldThree(c, [begin, go, go], c1, c2, c3);
      assert c3.tasks == map[];
    } else {
      var c4 := Apply(c3, go);
      UnfoldFour(c, [begin, go, go, go], c1, c2, c3, c4);
      assert c4.tasks == map[];
    }
  }

  lemma UnfoldThree(c: Config, steps: seq<Step>, c1: Config, c2: Config, c3: Config)
    requires |steps| == 3
    requires Enabled(c, steps[0]) && c1 == Apply(c, steps[0])
    requires Enabled(c1, steps[1]) && c2 == Apply(c1, steps[1])
    requires Enabled(c2, steps[2]) && c3 == Apply(c2, steps[2])
    ensures IsRun(c, steps) && After(c, steps) == c3
  {
    var (s1, s2, s3) := (steps[1..], steps[2..], steps[3..]);
    assert s1[1..] == s2 && s2[1..] == s3 && s3 == [];
    assert IsRun(c2, s2) && After(c2, s2) == c3;
    assert IsRun(c1, s1) && After(c1, s1) == c3;
  }

  /** What a revert changes, and all that it changes. */
  lemma RevertEffect(p: Platform, id: Id, final: Status)
    requires ValidPlatform(p) && IsRunning(p, id) && final != Running
    ensures var (q, e) := (Revert(p, id, final), p.experiments[id]);
      && q.experiments == p.experiments[id := e.(status := final, endedAt := Some(p.now))]
      && q.replicas == (if e.kind == ScaleDown
                        then p.replicas[e.instance := p.instances[e.instance].replicasMin]
                        else p.replicas)
      && q.incidents.Keys == p.incidents.Keys
      && (forall k <- p.incidents :: q.incidents[k] ==
            if p.incidents[k].instance == e.instance && p.incidents[k].resolvedAt == None
            then Incident(e.instance, Some(p.now)) else p.incidents[k])
      && q.now == p.now && q.instances == p.instances
  {
    assert ValidRow(p, p.experiments[id]);
  }

  /** Reverts of due experiments, one after the other, are a run: they keep the invariant and strand nothing. */
  lemma {:induction false} RevertAllKeepsInv(c: Config, order: seq<Id>) returns (d: Config)
    requires Inv(c) && c.tasks == map[]
    requires forall id <- order :: IsRunning(c.p, id) ==> c.p.experiments[id].revertAt.value <= c.p.now
    ensures Inv(d) && d.tasks == map[] && d.p == RevertAll(c.p, order)
    ensures d.stranded <= c.stranded && d.unresolved <= c.unresolved
    decreases |order|
  {
    d := c;
    if |order| > 0 {
      var (init, exp) := (order[..|order| - 1], order[|order| - 1]);
      assert forall id <- init :: id in order;
      d := RevertAllKeepsInv(c, init);
      RevertAllRows(c.p, init);
      assert exp in order;
      if IsRunning(d.p, exp) {
        RevertIsARun(d, 0, exp, Completed);
        RunKeepsInv(d, RevertSteps(0, exp, Completed));
        d := After(d, RevertSteps(0, exp, Completed));
      }
    }
  }

  function Later(p: Platform, seconds: nat): Platform {
    p.(now := p.now + seconds)
  }

  /** No experiment outlasts 300 seconds. */
  lemma AllDueLater(p: Platform, seconds: nat)
    requires ValidPlatform(p) && seconds >= 300
    ensures forall exp :: IsRunning(Later(p, seconds), exp) ==> exp in Due(Later(p, seconds))
  {
    forall exp | IsRunning(Later(p, seconds), exp) ensures exp in Due(Later(p, seconds)) {
      assert ValidRow(p, p.experiments[exp]);
    }
  }

  lemma TickStopsAll(p: Platform, seconds: nat, order: seq<Id>)
    requires ValidPlatform(p) && seconds >= 300
    requires (set id | id in order) == Due(Later(p, seconds))
    ensures forall exp :: !IsRunning(RevertAll(Later(p, seconds), order), exp)
  {
    AllDueLater(p, seconds);
    RevertAllStops(Later(p, seconds), order);
    forall exp | IsRunning(Later(p, seconds), exp) ensures exp in order {
      assert exp in Due(Later(p, seconds));
    }
  }

  /**
   Recovery. From any state with nothing in flight, rows left running by a restart included, the worker's first
   tick after 300 seconds leaves nothing running, every instance that is not stranded at its minimum, and no
   incident open except those a failure left behind.
   */
  lemma TickRecovers(c: Config, seconds: nat, order: seq<Id>) returns (d: Config)
    requires Inv(c) && c.tasks == map[] && seconds >= 300
    requires (set id | id in order) == Due(Later(c.p, seconds))
    ensures d.p == RevertAll(Later(c.p, seconds), order)
    ensures forall exp :: !IsRunning(d.p, exp)
    ensures forall i <- d.p.instances ::
      i in d.p.replicas && (d.p.replicas[i] == d.p.instances[i].replicasMin <==> i !in d.stranded)
    ensures forall k <- d.p.incidents :: d.p.incidents[k].resolvedAt.None? ==> d.p.incidents[k].instance in d.unresolved
    ensures d.stranded <= c.stranded && d.unresolved <= c.unresolved
  {
    StepKeepsInv(c, Pass(seconds));
    TickStopsAll(c.p, seconds, order);
    forall id <- order ensures id in Due(Later(c.p, seconds)) {
      assert id in (set x | x in order);
    }
    d := RevertAllKeepsInv(Apply(c, Pass(seconds)), order);
    NothingOwed(d);
  }

  lemma NothingOwed(d: Config)
    requires Inv(d) && d.tasks == map[] && forall exp :: !IsRunning(d.p, exp)
    ensures forall i <- d.p.instances ::
      i in d.p.replicas && (d.p.replicas[i] == d.p.instances[i].replicasMin <==> i !in d.stranded)
    ensures forall k <- d.p.incidents :: d.p.incidents[k].resolvedAt.None? ==> d.p.incidents[k].instance in d.unresolved
  {
    assert forall i, t :: !HeldByStart(d, i, t) && !AnnouncedBy(d, i, t) && !ClosedBy(d, i, t);
  }

  /**
   Stranding is real: when the process dies between scaling down and storing the row, nothing is in flight,
   nothing is running, and the instance keeps 0 of its 2 replicas.
   */
  lemma DeathStrandsAnInstance() returns (c: Config, steps: seq<Step>)
    ensures Initial(c) && IsRun(c, steps)
    ensures var d := After(c, steps);
      && d.tasks == map[] && d.p.experiments == map[]
      && d.p.instances == map[7 := Instance(true, 2)] && d.p.replicas == map[7 := 0]
  {
    c := Config(Platform(0, map[7 := Instance(true, 2)], map[7 := 2], map[], map[]), map[], {}, {});
    var req := Request("scale_down", None, None);
    steps := [BeginStart(1, 10, 20, 7, ScaleDown, req), Advance(1, true), Advance(1, true), Die(1)];
    var c1 := Apply(c, steps[0]);
    var c2 := Apply(c1, steps[1]);
    var c3 := Apply(c2, steps[2]);
    var c4 := Apply(c3, steps[3]);
    UnfoldFour(c, steps, c1, c2, c3, c4);
    assert c4.tasks == map[];
  }
}
