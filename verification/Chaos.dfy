/**
 Chaos experiments: faults injected into an app instance and reverted after a while.

 `Platform` is the durable state (experiment rows, CHAOS incidents) together with the replica counts of the
 cluster. `ChaosService` performs the operations one at a time, effect by effect. Module
 `ChaosInterleaving` lets their single effects interleave.
 */
module Chaos {
  import opened Common

  type Id = nat

  const MIN_DURATION_SEC: int := 5
  const MAX_DURATION_SEC: int := 300

  datatype Kind = PodKill | ScaleDown | CpuStress

  datatype Status = Running | Completed | Cancelled

  datatype Experiment = Experiment(
    instance: Id, kind: Kind, status: Status, originalReplicas: Option<int>,
    startedAt: int, revertAt: Option<int>, endedAt: Option<int>)

  datatype Incident = Incident(instance: Id, resolvedAt: Option<int>)

  datatype Instance = Instance(running: bool, replicasMin: int)

  datatype Platform = Platform(
    now: int, instances: map<Id, Instance>, replicas: map<Id, int>,
    experiments: map<Id, Experiment>, incidents: map<Id, Incident>)

  datatype Request = Request(kind: string, durationSec: Option<int>, targetReplicas: Option<int>)

  datatype ChaosError = NotFound | NotRunning | UnknownKind | NoPods | ClusterFailure

  function ClampDuration(secs: Option<int>): (d: int)
    ensures MIN_DURATION_SEC <= d <= MAX_DURATION_SEC
    ensures secs.Some? && MIN_DURATION_SEC <= secs.value <= MAX_DURATION_SEC ==> d == secs.value
    ensures secs.Some? && secs.value < MIN_DURATION_SEC ==> d == MIN_DURATION_SEC
    ensures secs.Some? && secs.value > MAX_DURATION_SEC ==> d == MAX_DURATION_SEC
    ensures secs.None? ==> d == 60
  {
    var s := if secs.None? then 60 else secs.value;
    if s < MIN_DURATION_SEC then MIN_DURATION_SEC else if s > MAX_DURATION_SEC then MAX_DURATION_SEC else s
  }

  function ParseKind(kind: string): Option<Kind> {
    if kind == "pod_kill" then Some(PodKill)
    else if kind == "scale_down" then Some(ScaleDown)
    else if kind == "cpu_stress" then Some(CpuStress)
    else None
  }

  /** The row written for an experiment that began at `startedAt`. */
  function NewExperiment(instance: Id, kind: Kind, duration: Option<int>, replicasMin: int,
          startedAt: int): Experiment {
    var revertAt := Some(startedAt + ClampDuration(duration));
    match kind
    case PodKill => Experiment(instance, kind, Completed, None, startedAt, None, None)
    case ScaleDown => Experiment(instance, kind, Running, Some(replicasMin), startedAt, revertAt, None)
    case CpuStress => Experiment(instance, kind, Running, None, startedAt, revertAt, None)
  }

  function TargetReplicas(target: Option<int>): (n: int)
    ensures n >= 0
  {
    if target.None? || target.value < 0 then 0 else target.value
  }

  // ---------- single effects ----------

  function Scale(p: Platform, instance: Id, n: int): Platform {
    p.(replicas := p.replicas[instance := n])
  }

  function OpenIncident(p: Platform, incident: Id, instance: Id): Platform {
    p.(incidents := p.incidents[incident := Incident(instance, None)])
  }

  function InsertExperiment(p: Platform, id: Id, e: Experiment): Platform {
    p.(experiments := p.experiments[id := if e.status == Completed then e.(endedAt := Some(p.now)) else e])
  }

  /** UPDATE ... SET status, ended_at WHERE id: not guarded by the current status. */
  function CloseExperiment(p: Platform, id: Id, final: Status): Platform {
    if id in p.experiments
    then p.(experiments := p.experiments[id := p.experiments[id].(status := final, endedAt := Some(p.now))])
    else p
  }

  function ResolveIncidents(p: Platform, instance: Id): Platform {
    p.(incidents := map k | k in p.incidents ::
      if p.incidents[k].instance == instance && p.incidents[k].resolvedAt.None?
      then p.incidents[k].(resolvedAt := Some(p.now))
      else p.incidents[k])
  }

  // ---------- whole operations ----------

  predicate IsRunning(p: Platform, id: Id) {
    id in p.experiments && p.experiments[id].status == Running
  }

  function Due(p: Platform): set<Id> {
    set id | id in p.experiments && IsRunning(p, id)
      && p.experiments[id].revertAt.Some? && p.experiments[id].revertAt.value <= p.now
  }

  function Restore(p: Platform, e: Experiment): Platform {
    if e.kind == ScaleDown && e.originalReplicas.Some? then Scale(p, e.instance, e.originalReplicas.value) else p
  }

  /** `revert_experiment` with no interference: restore, close the row, resolve the instance's incidents. */
  function Revert(p: Platform, id: Id, final: Status): Platform {
    if !IsRunning(p, id) then p else
    var e := p.experiments[id];
    ResolveIncidents(CloseExperiment(Restore(p, e), id, final), e.instance)
  }

  function RevertAll(p: Platform, order: seq<Id>): Platform {
    if |order| == 0 then p
    else Revert(RevertAll(p, order[..|order| - 1]), order[|order| - 1], Completed)
  }

  /** `start_experiment` with no interference, for an accepted request. */
  function Start(p: Platform, id: Id, incident: Id, instance: Id, kind: Kind, req: Request): Platform
    requires instance in p.instances
  {
    var e := NewExperiment(instance, kind, req.durationSec, p.instances[instance].replicasMin, p.now);
    var hit := if kind == ScaleDown then Scale(p, instance, TargetReplicas(req.targetReplicas)) else p;
    var announced := if kind == PodKill then hit else OpenIncident(hit, incident, instance);
    InsertExperiment(announced, id, e)
  }

  class ChaosService {
    var now: int
    var instances: map<Id, Instance>
    var replicas: map<Id, int>
    var experiments: map<Id, Experiment>
    var incidents: map<Id, Incident>

    ghost function State(): Platform
      reads this
    {
      Platform(now, instances, replicas, experiments, incidents)
    }

    /**
     `start_chaos` and `start_experiment`. `client` tells whether the cluster can be reached, `pods` is the
     number of live pods it lists for the instance, and `scaled` tells whether the cluster call of the other
     two kinds succeeds.
     */
    method StartChaos(id: Id, incident: Id, instance: Id, req: Request, client: bool, pods: nat, scaled: bool)
      returns (r: Result<Experiment, ChaosError>)
      modifies this
      ensures r.Ok? <==>
        && instance in old(instances) && old(instances)[instance].running
        && client && ParseKind(req.kind).Some?
        && if req.kind == "pod_kill" then pods > 0 else scaled
      ensures r == Err(NotFound) <==> instance !in old(instances)
      ensures r == Err(NotRunning) <==> instance in old(instances) && !old(instances)[instance].running
      ensures r == Err(UnknownKind) <==>
        instance in old(instances) && old(instances)[instance].running && client && ParseKind(req.kind).None?
      ensures r == Err(NoPods) <==>
        && instance in old(instances) && old(instances)[instance].running && client
        && req.kind == "pod_kill" && pods == 0
      ensures r == Err(ClusterFailure) <==>
        && instance in old(instances) && old(instances)[instance].running
        && (!client || (req.kind != "pod_kill" && ParseKind(req.kind).Some? && !scaled))
      ensures r.Ok? ==>
        && State() == Start(old(State()), id, incident, instance, ParseKind(req.kind).value, req)
        && id in experiments && r.value == experiments[id]
      ensures r.Err? ==> State() == old(State())
    {
      if instance !in instances { return Err(NotFound); }
      var inst := instances[instance];
      if !inst.running { return Err(NotRunning); }
      if !client { return Err(ClusterFailure); }
      var startedAt := now;
      var row: Experiment;
      if req.kind == "pod_kill" {
        if pods == 0 { return Err(NoPods); }
        row := Experiment(instance, PodKill, Completed, None, startedAt, None, None);
      } else if req.kind == "scale_down" {
        var target := if req.targetReplicas.None? then 0 else req.targetReplicas.value;
        if target < 0 { target := 0; }
        var dur := ClampDuration(req.durationSec);
        if !scaled { return Err(ClusterFailure); }
        replicas := replicas[instance := target];
        incidents := incidents[incident := Incident(instance, None)];
        row := Experiment(instance, ScaleDown, Running, Some(inst.replicasMin), startedAt, Some(startedAt + dur), None);
      } else if req.kind == "cpu_stress" {
        var dur := ClampDuration(req.durationSec);
        if !scaled { return Err(ClusterFailure); }
        incidents := incidents[incident := Incident(instance, None)];
        row := Experiment(instance, CpuStress, Running, None, startedAt, Some(startedAt + dur), None);
      } else {
        return Err(UnknownKind);
      }
      row := row.(endedAt := if row.status == Completed then Some(now) else None);
      experiments := experiments[id := row];
      r := Ok(row);
    }

    /** `revert_experiment`. */
    method RevertExperiment(id: Id, final: Status)
      modifies this
      ensures State() == Revert(old(State()), id, final)
    {
      if id !in experiments || experiments[id].status != Running {
        return;
      }
      var e := experiments[id];
      if e.kind == ScaleDown {
        if e.originalReplicas.Some? {
          replicas := replicas[e.instance := e.originalReplicas.value];
        }
      }
      experiments := experiments[id := experiments[id].(status := final, endedAt := Some(now))];
      ResolveChaosIncidents(e.instance);
    }

    method ResolveChaosIncidents(instance: Id)
      modifies this`incidents
      ensures State() == ResolveIncidents(old(State()), instance)
    {
      incidents := map k | k in incidents ::
        if incidents[k].instance == instance && incidents[k].resolvedAt.None?
        then incidents[k].(resolvedAt := Some(now))
        else incidents[k];
    }

    /** `cancel_chaos`. */
    method CancelChaos(instance: Id, id: Id) returns (r: Result<(), ChaosError>)
      modifies this
      ensures r.Ok? <==>
        id in old(experiments) && old(experiments)[id].instance == instance && IsRunning(old(State()), id)
      ensures State() == if r.Ok? then Revert(old(State()), id, Cancelled) else old(State())
    {
      if id !in experiments || experiments[id].instance != instance || experiments[id].status != Running {
        return Err(NotFound);
      }
      RevertExperiment(id, Cancelled);
      r := Ok(());
    }

    /** One tick of the leader's worker; the due rows come back in no particular order. */
    method WorkerTick() returns (ghost order: seq<Id>)
      modifies this
      ensures (set id | id in order) == Due(old(State()))
      ensures State() == RevertAll(old(State()), order)
      ensures Due(State()) == {}
      ensures now == old(now) && instances == old(instances) && experiments.Keys == old(experiments).Keys
      ensures forall id <- experiments ::
        var e := old(experiments)[id];
        experiments[id] == if e.status == Running && e.revertAt.Some? && e.revertAt.value <= now
          then e.(status := Completed, endedAt := Some(now)) else e
      ensures forall i :: (forall id <- old(experiments) :: SparedBy(old(experiments)[id], now, i)) ==>
        SameOnInstance(old(State()), State(), i)
    {
      ghost var start := State();
      var due := set id | id in experiments && experiments[id].status == Running
        && experiments[id].revertAt.Some? && experiments[id].revertAt.value <= now;
      var rows := due;
      order := [];
      while rows != {}
        invariant rows <= due == Due(start)
        invariant (set id | id in order) == due - rows
        invariant State() == RevertAll(start, order)
        invariant Due(State()) <= rows
        decreases rows
      {
        var r :| r in rows;
        assert due - (rows - {r}) == (due - rows) + {r};
        rows := rows - {r};
        ghost var before := State();
        RevertExperiment(r, Completed);
        RevertClears(before, r);
        assert (order + [r])[..|order|] == order;
        AddToSet(order, r);
        order := order + [r];
      }
      TickRows(start, order);
      forall i | forall id <- start.experiments :: SparedBy(start.experiments[id], start.now, i)
        ensures SameOnInstance(start, State(), i)
      {
        TickElsewhere(start, order, i);
      }
    }
  }

  /** The experiment is on another instance, or it does not run, or its time has not come at `t`. */
  predicate SparedBy(e: Experiment, t: int, instance: Id) {
    e.instance != instance || e.status != Running || e.revertAt.None? || e.revertAt.value > t
  }

  /** Replicas and incidents of one instance are the same in two states. */
  ghost predicate SameOnInstance(p: Platform, q: Platform, i: Id) {
    && (i in q.replicas <==> i in p.replicas) && (i in p.replicas ==> q.replicas[i] == p.replicas[i])
    && q.incidents.Keys == p.incidents.Keys
    && forall k <- p.incidents :: p.incidents[k].instance == i ==> q.incidents[k] == p.incidents[k]
  }

  /** What reverting a list does to the rows: those that run are closed now, the others stay. */
  lemma {:induction false} RevertAllRows(p: Platform, order: seq<Id>)
    ensures var q := RevertAll(p, order);
      && q.now == p.now && q.instances == p.instances
      && q.experiments.Keys == p.experiments.Keys && q.incidents.Keys == p.incidents.Keys
      && (forall id <- p.experiments :: q.experiments[id] ==
            if p.experiments[id].status == Running && id in order
            then p.experiments[id].(status := Completed, endedAt := Some(p.now)) else p.experiments[id])
      && (forall k <- p.incidents :: q.incidents[k].instance == p.incidents[k].instance)
  {
    if |order| > 0 {
      var init, last := order[..|order| - 1], order[|order| - 1];
      RevertAllRows(p, init);
      assert forall id :: id in order <==> id in init || id == last;
      RevertRow(RevertAll(p, init), last);
    }
  }

  lemma RevertRow(p: Platform, id: Id)
    ensures var q := Revert(p, id, Completed);
      && q.now == p.now && q.instances == p.instances
      && q.experiments.Keys == p.experiments.Keys && q.incidents.Keys == p.incidents.Keys
      && (forall other <- p.experiments :: q.experiments[other] ==
            if p.experiments[other].status == Running && other == id
            then p.experiments[other].(status := Completed, endedAt := Some(p.now)) else p.experiments[other])
      && (forall k <- p.incidents :: q.incidents[k].instance == p.incidents[k].instance)
  {}

  lemma {:induction false} RevertAllElsewhere(p: Platform, order: seq<Id>, i: Id)
    requires forall id <- order :: id in p.experiments && p.experiments[id].status == Running ==>
      p.experiments[id].instance != i
    ensures SameOnInstance(p, RevertAll(p, order), i)
  {
    if |order| > 0 {
      var init, last := order[..|order| - 1], order[|order| - 1];
      assert forall id <- init :: id in order;
      RevertAllElsewhere(p, init, i);
      RevertAllRows(p, init);
      assert last in order;
      RevertElsewhere(RevertAll(p, init), last, i);
    }
  }

  lemma RevertElsewhere(p: Platform, id: Id, i: Id)
    requires id in p.experiments && p.experiments[id].status == Running ==> p.experiments[id].instance != i
    ensures SameOnInstance(p, Revert(p, id, Completed), i)
  {}

  lemma TickRows(p: Platform, order: seq<Id>)
    requires (set id | id in order) == Due(p)
    ensures var q := RevertAll(p, order);
      && q.now == p.now && q.instances == p.instances && q.experiments.Keys == p.experiments.Keys
      && forall id <- p.experiments ::
        var e := p.experiments[id];
        q.experiments[id] == if e.status == Running && e.revertAt.Some? && e.revertAt.value <= p.now
          then e.(status := Completed, endedAt := Some(p.now)) else e
  {
    RevertAllRows(p, order);
    forall id ensures id in order <==> id in Due(p) {
      assert id in order <==> id in (set x | x in order);
    }
  }

  lemma TickElsewhere(p: Platform, order: seq<Id>, i: Id)
    requires (set id | id in order) == Due(p)
    requires forall id <- p.experiments :: SparedBy(p.experiments[id], p.now, i)
    ensures SameOnInstance(p, RevertAll(p, order), i)
  {
    forall id <- order ensures id in Due(p) {
      assert id in (set x | x in order);
    }
    RevertAllElsewhere(p, order, i);
  }

  /** An accepted start, in terms of the request. */
  lemma StartEffect(p: Platform, id: Id, incident: Id, instance: Id, kind: Kind, req: Request)
    requires instance in p.instances
    ensures var q := Start(p, id, incident, instance, kind, req);
      && q.now == p.now && q.instances == p.instances
      && q.experiments.Keys == p.experiments.Keys + {id}
      && (forall other <- p.experiments :: other != id ==> q.experiments[other] == p.experiments[other])
      && StartedRow(q.experiments[id], p, instance, kind, req.durationSec)
      && q.replicas == (if kind != ScaleDown then p.replicas
                        else p.replicas[instance := if req.targetReplicas.Some? && req.targetReplicas.value >= 0
                                                    then req.targetReplicas.value else 0])
      && q.incidents == (if kind == PodKill then p.incidents else p.incidents[incident := Incident(instance, None)])
  {}

  /** A row as the start of an experiment stores it; a killed pod needs no revert and its row is closed at once. */
  ghost predicate StartedRow(e: Experiment, p: Platform, instance: Id, kind: Kind, durationSec: Option<int>) {
    && e.instance == instance && e.kind == kind && e.startedAt == p.now
    && (kind == PodKill ==> e.status == Completed && e.endedAt == Some(p.now) && e.revertAt == None)
    && (kind != PodKill ==>
          && e.status == Running && e.endedAt == None
          && (durationSec == None ==> e.revertAt == Some(p.now + 60))
          && forall d :: durationSec == Some(d) ==>
              e.revertAt == Some(p.now + if d < 5 then 5 else if d > 300 then 300 else d))
    && (kind == ScaleDown ==> instance in p.instances && e.originalReplicas == Some(p.instances[instance].replicasMin))
  }

  /** Incidents resolved earlier keep their time; the open ones of the instance are resolved now. */
  lemma ResolveExactly(p: Platform, instance: Id)
    ensures var q := ResolveIncidents(p, instance);
      && q == p.(incidents := q.incidents) && q.incidents.Keys == p.incidents.Keys
      && forall k <- p.incidents :: q.incidents[k] ==
          if p.incidents[k].instance == instance && p.incidents[k].resolvedAt == None
          then Incident(instance, Some(p.now)) else p.incidents[k]
  {}

  lemma AddToSet(order: seq<Id>, r: Id)
    ensures (set id | id in order + [r]) == (set id | id in order) + {r}
  {}

  /** Reverting a list of experiments stops exactly these. */
  lemma {:induction false} RevertAllStops(p: Platform, order: seq<Id>)
    ensures RevertAll(p, order).experiments.Keys == p.experiments.Keys
    ensures forall id :: IsRunning(RevertAll(p, order), id) <==> IsRunning(p, id) && id !in order
  {
    if |order| > 0 {
      RevertAllStops(p, order[..|order| - 1]);
      RevertStops(RevertAll(p, order[..|order| - 1]), order[|order| - 1]);
    }
  }

  lemma RevertStops(p: Platform, id: Id)
    ensures Revert(p, id, Completed).experiments.Keys == p.experiments.Keys
    ensures forall other :: IsRunning(Revert(p, id, Completed), other) <==> IsRunning(p, other) && other != id
  {}

  lemma RevertClears(p: Platform, id: Id)
    ensures Due(Revert(p, id, Completed)) == Due(p) - {id}
  {
    var q := Revert(p, id, Completed);
    assert q.now == p.now && q.experiments.Keys == p.experiments.Keys;
    assert forall k <- p.experiments :: k != id ==> q.experiments[k] == p.experiments[k];
  }
}
