/**
 The chaos machine as a set of tasks whose single effects interleave: user requests that start or cancel an
 experiment, and the auto-revert worker. Every effect may fail, a task may die between two effects, and two
 tasks may revert the same experiment at once.

 `stranded` and `unresolved` are history variables. The first names the instances that a failure left away from
 their minimum of replicas and that nothing has scaled back since; the second those whose open incidents may have
 been left behind. A run without failures keeps both empty.
 */
module ChaosInterleaving {
  import opened Common
  import opened Chaos

  datatype StartStage = Begun | FaultApplied | Announced

  datatype RevertStage = Loaded | Restored | Closed

  datatype Task =
    | Starting(id: Id, incident: Id, row: Experiment, target: int, startStage: StartStage)
    | Reverting(exp: Id, final: Status, loaded: Experiment, revertStage: RevertStage)

  datatype Config = Config(p: Platform, tasks: map<Id, Task>, stranded: set<Id>, unresolved: set<Id>)

  datatype Step =
    | BeginStart(task: Id, id: Id, incident: Id, instance: Id, kind: Kind, req: Request)
    | BeginCancel(task: Id, exp: Id)
    | BeginDue(task: Id, exp: Id)
    | Advance(task: Id, ok: bool)
    | Die(task: Id)
    | Pass(seconds: nat)

  function Remove(m: map<Id, Task>, t: Id): map<Id, Task> {
    map k | k in m && k != t :: m[k]
  }

  // ---------- steps ----------

  /** Uuids are fresh: not stored, and not held by a task that is about to store them. */
  ghost predicate FreshIds(c: Config, id: Id, incident: Id) {
    && id !in c.p.experiments && incident !in c.p.incidents
    && forall t <- c.tasks :: c.tasks[t].Starting? ==> c.tasks[t].id != id && c.tasks[t].incident != incident
  }

  ghost predicate Enabled(c: Config, s: Step) {
    match s
    case BeginStart(t, id, incident, instance, kind, req) =>
      t !in c.tasks && instance in c.p.instances && c.p.instances[instance].running && FreshIds(c, id, incident)
    case BeginCancel(t, exp) => t !in c.tasks && IsRunning(c.p, exp)
    case BeginDue(t, exp) =>
      && t !in c.tasks && IsRunning(c.p, exp)
      && c.p.experiments[exp].revertAt.Some? && c.p.experiments[exp].revertAt.value <= c.p.now
    case Advance(t, ok) => t in c.tasks
    case Die(t) => t in c.tasks
    case Pass(seconds) => true
  }

  predicate OffMinimum(p: Platform, i: Id) {
    i in p.instances && i in p.replicas && p.replicas[i] != p.instances[i].replicasMin
  }

  /** A failure leaves instance `i` to itself. */
  function Strand(c: Config, i: Id): Config {
    c.(stranded := if OffMinimum(c.p, i) then c.stranded + {i} else c.stranded)
  }

  function Scaled(c: Config, i: Id, n: int): Config {
    var p := Scale(c.p, i, n);
    c.(p := p, stranded := if OffMinimum(p, i) then c.stranded else c.stranded - {i})
  }

  /** The next effect of a task that starts an experiment. */
  function AdvanceStart(c: Config, t: Id, ok: bool): Config
    requires t in c.tasks && c.tasks[t].Starting?
  {
    var task := c.tasks[t];
    var i := task.row.instance;
    match task.startStage
    case Begun =>
      if !ok then c.(tasks := Remove(c.tasks, t)) else
      (match task.row.kind
       case PodKill => c.(tasks := c.tasks[t := task.(startStage := Announced)])
       case ScaleDown =>
         Scaled(c, i, task.target).(tasks := c.tasks[t := task.(startStage := FaultApplied)])
       case CpuStress => c.(tasks := c.tasks[t := task.(startStage := FaultApplied)]))
    case FaultApplied =>
      c.(p := if ok then OpenIncident(c.p, task.incident, i) else c.p,
         tasks := c.tasks[t := task.(startStage := Announced)])
    case Announced =>
      if ok then c.(p := InsertExperiment(c.p, task.id, task.row), tasks := Remove(c.tasks, t))
      else Abandon(c, t)
  }

  /** The next effect of a task that reverts one; the task goes on after a failed effect. */
  function AdvanceRevert(c: Config, t: Id, ok: bool): Config
    requires t in c.tasks && c.tasks[t].Reverting?
  {
    var task := c.tasks[t];
    var i := task.loaded.instance;
    match task.revertStage
    case Loaded =>
      var next := c.tasks[t := task.(revertStage := Restored)];
      if task.loaded.kind != ScaleDown || task.loaded.originalReplicas.None? then c.(tasks := next)
      else if ok then Scaled(c, i, task.loaded.originalReplicas.value).(tasks := next)
      else Strand(c, i).(tasks := next)
    case Restored =>
      c.(p := if ok then CloseExperiment(c.p, task.exp, task.final) else c.p,
         tasks := c.tasks[t := task.(revertStage := Closed)])
    case Closed =>
      if ok then c.(p := ResolveIncidents(c.p, i), tasks := Remove(c.tasks, t), unresolved := c.unresolved - {i})
      else Abandon(c, t)
  }

  /** A task that disappears after its last effect leaves the rest of its work undone. */
  function Abandon(c: Config, t: Id): Config
    requires t in c.tasks
  {
    var task := c.tasks[t];
    var left :=
      if task.Starting? && task.row.kind == ScaleDown && task.startStage != Begun
      then Strand(c, task.row.instance) else c;
    var loose :=
      if task.Starting? && task.startStage == Announced && task.row.kind != PodKill then {task.row.instance}
      else if task.Reverting? && task.revertStage == Closed then {task.loaded.instance}
      else {};
    left.(tasks := Remove(c.tasks, t), unresolved := c.unresolved + loose)
  }

  ghost function Apply(c: Config, s: Step): Config
    requires Enabled(c, s)
  {
    match s
    case BeginStart(t, id, incident, instance, kind, req) =>
      var row := NewExperiment(instance, kind, req.durationSec, c.p.instances[instance].replicasMin, c.p.now);
      c.(tasks := c.tasks[t := Starting(id, incident, row, TargetReplicas(req.targetReplicas), Begun)])
    case BeginCancel(t, exp) =>
      c.(tasks := c.tasks[t := Reverting(exp, Cancelled, c.p.experiments[exp], Loaded)])
    case BeginDue(t, exp) =>
      c.(tasks := c.tasks[t := Reverting(exp, Completed, c.p.experiments[exp], Loaded)])
    case Advance(t, ok) =>
      if c.tasks[t].Starting? then AdvanceStart(c, t, ok) else AdvanceRevert(c, t, ok)
    case Die(t) => Abandon(c, t)
    case Pass(seconds) => c.(p := c.p.(now := c.p.now + seconds))
  }

  ghost predicate Reliable(s: Step) {
    (s.Advance? ==> s.ok) && !s.Die?
  }

  // ---------- runs ----------

  ghost predicate Initial(c: Config) {
    && c.tasks == map[] && c.stranded == {} && c.unresolved == {}
    && c.p.experiments == map[] && c.p.incidents == map[]
    && c.p.replicas.Keys == c.p.instances.Keys
    && forall i <- c.p.instances :: c.p.replicas[i] == c.p.instances[i].replicasMin
  }

  ghost predicate IsRun(c: Config, steps: seq<Step>)
    decreases |steps|
  {
    |steps| == 0 || (Enabled(c, steps[0]) && IsRun(Apply(c, steps[0]), steps[1..]))
  }

  ghost function After(c: Config, steps: seq<Step>): Config
    requires IsRun(c, steps)
    decreases |steps|
  {
    if |steps| == 0 then c else After(Apply(c, steps[0]), steps[1..])
  }

  // ---------- invariants ----------

  ghost predicate ValidRow(p: Platform, e: Experiment) {
    && e.instance in p.instances
    && e.startedAt <= p.now
    && (e.kind == ScaleDown ==> e.originalReplicas == Some(p.instances[e.instance].replicasMin))
    && (e.status == Running ==>
          && e.kind != PodKill && e.revertAt.Some?
          && e.startedAt + MIN_DURATION_SEC <= e.revertAt.value <= e.startedAt + MAX_DURATION_SEC)
    && (e.status == Completed && e.revertAt.Some? ==> e.endedAt.Some? && e.endedAt.value >= e.revertAt.value)
  }

  ghost predicate ValidPlatform(p: Platform) {
    && p.replicas.Keys == p.instances.Keys
    && forall id <- p.experiments ::
        ValidRow(p, p.experiments[id]) && (p.experiments[id].status == Running <==> p.experiments[id].endedAt.None?)
  }

  ghost predicate ValidTask(p: Platform, task: Task) {
    match task
    case Starting(id, incident, row, target, stage) =>
      && id !in p.experiments
      && ValidRow(p, row) && row.endedAt.None? && (row.status == Running <==> row.kind != PodKill)
      && row.status != Cancelled
      && (row.kind == PodKill ==> stage != FaultApplied)
    case Reverting(exp, final, loaded, stage) =>
      && exp in p.experiments && final != Running
      && ValidRow(p, loaded)
      && SameSubject(loaded, p.experiments[exp])
      && (final == Completed && loaded.revertAt.Some? ==> loaded.revertAt.value <= p.now)
  }

  ghost predicate ValidTasks(c: Config) {
    && (forall t <- c.tasks :: ValidTask(c.p, c.tasks[t]))
    && (forall t <- c.tasks, u <- c.tasks :: t != u && c.tasks[t].Starting? && c.tasks[u].Starting? ==>
          c.tasks[t].id != c.tasks[u].id)
  }

  ghost predicate HeldByStart(c: Config, i: Id, t: Id) {
    && t in c.tasks && c.tasks[t].Starting?
    && c.tasks[t].row.instance == i && c.tasks[t].row.kind == ScaleDown && c.tasks[t].startStage != Begun
  }

  ghost predicate BeingClosed(c: Config, exp: Id, t: Id) {
    t in c.tasks && c.tasks[t].Reverting? && c.tasks[t].exp == exp && c.tasks[t].revertStage == Restored
  }

  ghost predicate HeldByRow(c: Config, i: Id, exp: Id) {
    && IsRunning(c.p, exp) && c.p.experiments[exp].instance == i && c.p.experiments[exp].kind == ScaleDown
    && forall t :: !BeingClosed(c, exp, t)
  }

  /** Somebody still owes instance `i` its replicas: a start past its scale-down, or a row yet to be reverted. */
  ghost predicate HeldDown(c: Config, i: Id) {
    (exists t :: HeldByStart(c, i, t)) || (exists exp :: HeldByRow(c, i, exp))
  }

  ghost predicate ReplicasAccounted(c: Config) {
    forall i <- c.p.instances :: i in c.p.replicas ==>
      c.p.replicas[i] == c.p.instances[i].replicasMin || i in c.stranded || HeldDown(c, i)
  }

  ghost predicate AnnouncedBy(c: Config, i: Id, t: Id) {
    t in c.tasks && c.tasks[t].Starting? && c.tasks[t].row.instance == i && c.tasks[t].startStage == Announced
      && c.tasks[t].row.kind != PodKill
  }

  ghost predicate ClosedBy(c: Config, i: Id, t: Id) {
    t in c.tasks && c.tasks[t].Reverting? && c.tasks[t].loaded.instance == i && c.tasks[t].revertStage == Closed
  }

  ghost predicate RunningOn(c: Config, i: Id, exp: Id) {
    IsRunning(c.p, exp) && c.p.experiments[exp].instance == i
  }

  /** An experiment runs on `i`, or a start or revert of one is in flight. */
  ghost predicate UnderTest(c: Config, i: Id) {
    || (exists t :: AnnouncedBy(c, i, t)) || (exists t :: ClosedBy(c, i, t)) || (exists exp :: RunningOn(c, i, exp))
  }

  ghost predicate IncidentsAccounted(c: Config) {
    forall k <- c.p.incidents :: c.p.incidents[k].resolvedAt.None? ==>
      c.p.incidents[k].instance in c.unresolved || UnderTest(c, c.p.incidents[k].instance)
  }

  ghost predicate StrandedIsOff(c: Config) {
    forall i <- c.stranded :: OffMinimum(c.p, i)
  }

  ghost predicate Inv(c: Config) {
    && ValidPlatform(c.p) && ValidTasks(c)
    && ReplicasAccounted(c) && StrandedIsOff(c) && IncidentsAccounted(c)
  }

  // ---------- every step keeps the invariants ----------

  predicate SameSubject(e: Experiment, f: Experiment) {
    e.instance == f.instance && e.kind == f.kind && e.revertAt == f.revertAt
  }

  /** What every step leaves: the instances, and the instance and kind of each stored experiment. */
  ghost predicate Grows(p: Platform, q: Platform) {
    && q.instances == p.instances && q.now >= p.now
    && (forall id <- p.experiments :: id in q.experiments && SameSubject(p.experiments[id], q.experiments[id]))
  }

  lemma EffectsGrow(p: Platform, i: Id, n: int, k: Id, exp: Id, final: Status, loaded: Experiment)
    ensures Grows(p, p) && Grows(p, Scale(p, i, n)) && Grows(p, OpenIncident(p, k, i))
    ensures Grows(p, CloseExperiment(p, exp, final)) && Grows(p, ResolveIncidents(p, i)) && Grows(p, Restore(p, loaded))
  {}

  lemma StartGrows(c: Config, t: Id, ok: bool)
    requires t in c.tasks && c.tasks[t].Starting? && ValidTask(c.p, c.tasks[t])
    ensures Grows(c.p, AdvanceStart(c, t, ok).p)
    ensures forall id <- AdvanceStart(c, t, ok).p.experiments :: id in c.p.experiments || id == c.tasks[t].id
  {
    var task := c.tasks[t];
    EffectsGrow(c.p, task.row.instance, task.target, task.incident, 0, Completed, task.row);
  }

  lemma RevertGrows(c: Config, t: Id, ok: bool)
    requires t in c.tasks && c.tasks[t].Reverting? && ValidTask(c.p, c.tasks[t])
    ensures Grows(c.p, AdvanceRevert(c, t, ok).p)
    ensures AdvanceRevert(c, t, ok).p.experiments.Keys == c.p.experiments.Keys
  {
    var task := c.tasks[t];
    EffectsGrow(c.p, task.loaded.instance, 0, 0, task.exp, task.final, task.loaded);
  }

  /** A step stores at most the experiment of the start it moves. */
  lemma StepGrows(c: Config, s: Step)
    requires ValidTasks(c) && Enabled(c, s)
    ensures Grows(c.p, Apply(c, s).p)
    ensures forall id <- Apply(c, s).p.experiments ::
      id in c.p.experiments || (s.Advance? && c.tasks[s.task].Starting? && id == c.tasks[s.task].id)
  {
    if s.Advance? {
      assert ValidTask(c.p, c.tasks[s.task]);
      if c.tasks[s.task].Starting? { StartGrows(c, s.task, s.ok); } else { RevertGrows(c, s.task, s.ok); }
    }
  }

  lemma EffectsKeepPlatform(p: Platform, i: Id, n: int, k: Id, exp: Id, final: Status)
    requires ValidPlatform(p) && i in p.instances && final != Running
    requires final == Completed && exp in p.experiments && p.experiments[exp].revertAt.Some? ==>
      p.experiments[exp].revertAt.value <= p.now
    ensures ValidPlatform(Scale(p, i, n)) && ValidPlatform(OpenIncident(p, k, i))
    ensures ValidPlatform(CloseExperiment(p, exp, final)) && ValidPlatform(ResolveIncidents(p, i))
  {}

  lemma StartKeepsPlatform(c: Config, t: Id, ok: bool)
    requires ValidPlatform(c.p) && t in c.tasks && c.tasks[t].Starting? && ValidTask(c.p, c.tasks[t])
    ensures ValidPlatform(AdvanceStart(c, t, ok).p)
  {
    var task := c.tasks[t];
    EffectsKeepPlatform(c.p, task.row.instance, task.target, task.incident, 0, Cancelled);
  }

  lemma RevertKeepsPlatform(c: Config, t: Id, ok: bool)
    requires ValidPlatform(c.p) && t in c.tasks && c.tasks[t].Reverting? && ValidTask(c.p, c.tasks[t])
    ensures ValidPlatform(AdvanceRevert(c, t, ok).p)
  {
    var task := c.tasks[t];
    var n := if task.loaded.originalReplicas.Some? then task.loaded.originalReplicas.value else 0;
    EffectsKeepPlatform(c.p, task.loaded.instance, n, 0, task.exp, task.final);
  }

  lemma StepKeepsPlatform(c: Config, s: Step)
    requires ValidPlatform(c.p) && ValidTasks(c) && Enabled(c, s)
    ensures ValidPlatform(Apply(c, s).p)
  {
    if s.Advance? {
      assert ValidTask(c.p, c.tasks[s.task]);
      if c.tasks[s.task].Starting? {
        StartKeepsPlatform(c, s.task, s.ok);
      } else {
        RevertKeepsPlatform(c, s.task, s.ok);
      }
    }
  }

  /** What a step does to the platform leaves the tasks it does not move valid. */
  lemma GrowingKeepsTask(p: Platform, q: Platform, task: Task)
    requires Grows(p, q) && ValidTask(p, task) && (task.Starting? ==> task.id !in q.experiments)
    ensures ValidTask(q, task)
  {}

  lemma StepKeepsOtherTask(c: Config, s: Step, t: Id)
    requires ValidTasks(c) && Enabled(c, s)
    requires t in c.tasks && (s.Pass? || s.task != t)
    ensures ValidTask(Apply(c, s).p, c.tasks[t])
  {
    assert ValidTask(c.p, c.tasks[t]);
    StepGrows(c, s);
    GrowingKeepsTask(c.p, Apply(c, s).p, c.tasks[t]);
  }

  lemma AdvancedStartIsValid(c: Config, t: Id, ok: bool)
    requires ValidPlatform(c.p) && t in c.tasks && c.tasks[t].Starting? && ValidTask(c.p, c.tasks[t])
    ensures var d := AdvanceStart(c, t, ok); t in d.tasks ==> ValidTask(d.p, d.tasks[t])
  {}

  lemma AdvancedRevertIsValid(c: Config, t: Id, ok: bool)
    requires ValidPlatform(c.p) && t in c.tasks && c.tasks[t].Reverting? && ValidTask(c.p, c.tasks[t])
    ensures var d := AdvanceRevert(c, t, ok); t in d.tasks ==> ValidTask(d.p, d.tasks[t])
  {}

  lemma StepKeepsMovedTask(c: Config, s: Step)
    requires ValidPlatform(c.p) && ValidTasks(c) && Enabled(c, s)
    ensures !s.Pass? && s.task in Apply(c, s).tasks ==> ValidTask(Apply(c, s).p, Apply(c, s).tasks[s.task])
  {
    if s.Advance? {
      assert ValidTask(c.p, c.tasks[s.task]);
      if c.tasks[s.task].Starting? {
        AdvancedStartIsValid(c, s.task, s.ok);
      } else {
        AdvancedRevertIsValid(c, s.task, s.ok);
      }
    }
  }

  lemma StepKeepsIds(c: Config, s: Step, t: Id, u: Id)
    requires ValidTasks(c) && Enabled(c, s) && t != u
    ensures var d := Apply(c, s);
      t in d.tasks && u in d.tasks && d.tasks[t].Starting? && d.tasks[u].Starting? ==> d.tasks[t].id != d.tasks[u].id
  {
  }

  lemma StepKeepsTasks(c: Config, s: Step)
    requires ValidPlatform(c.p) && ValidTasks(c) && Enabled(c, s)
    ensures ValidTasks(Apply(c, s))
  {
    var d := Apply(c, s);
    forall t <- d.tasks ensures ValidTask(d.p, d.tasks[t]) {
      if s.Pass? || s.task != t {
        StepKeepsOtherTask(c, s, t);
      } else {
        StepKeepsMovedTask(c, s);
      }
    }
    forall t <- d.tasks, u <- d.tasks | t != u && d.tasks[t].Starting? && d.tasks[u].Starting?
      ensures d.tasks[t].id != d.tasks[u].id
    {
      StepKeepsIds(c, s, t, u);
    }
  }

  ghost predicate ReplicasAccountedAt(c: Config, i: Id) {
    i in c.p.instances && i in c.p.replicas &&
    (c.p.replicas[i] == c.p.instances[i].replicasMin || i in c.stranded || HeldDown(c, i))
  }

  lemma StoredStartHolds(c: Config, s: Step, i: Id, t: Id)
    requires Inv(c) && s == Advance(t, true) && HeldByStart(c, i, t) && c.tasks[t].startStage == Announced
    ensures HeldByRow(Apply(c, s), i, c.tasks[t].id)
  {
    var d := Apply(c, s);
    assert ValidTask(c.p, c.tasks[t]);
    forall u ensures !BeingClosed(d, c.tasks[t].id, u) {
      assert u in c.tasks ==> ValidTask(c.p, c.tasks[u]);
    }
  }

  lemma HeldByStartKept(c: Config, s: Step, i: Id, t: Id)
    requires Inv(c) && Enabled(c, s) && i in c.p.instances && HeldByStart(c, i, t)
    ensures ReplicasAccountedAt(Apply(c, s), i)
  {
    var d := Apply(c, s);
    StepKeepsPlatform(c, s);
    if s.Advance? && s.task == t && s.ok && c.tasks[t].startStage == Announced {
      StoredStartHolds(c, s, i, t);
    } else if (s.Die? || (s.Advance? && c.tasks[t].startStage == Announced)) && s.task == t {
      assert OffMinimum(c.p, i) ==> i in d.stranded;
    } else {
      StartStillHolds(c, s, i, t);
    }
  }

  lemma StartStillHolds(c: Config, s: Step, i: Id, t: Id)
    requires Enabled(c, s) && HeldByStart(c, i, t)
    requires !s.Pass? && s.task == t ==> s.Advance? && c.tasks[t].startStage == FaultApplied
    ensures HeldByStart(Apply(c, s), i, t)
  {}

  ghost predicate RevertsNow(c: Config, s: Step, exp: Id) {
    s.Advance? && s.task in c.tasks && c.tasks[s.task].Reverting? && c.tasks[s.task].exp == exp
      && c.tasks[s.task].revertStage == Loaded
  }

  /** The scaling step of a revert gives the instance its replicas back, or is on record as failed. */
  lemma RevertingAccounts(c: Config, s: Step, i: Id, exp: Id)
    requires Inv(c) && Enabled(c, s) && i in c.p.instances && HeldByRow(c, i, exp) && RevertsNow(c, s, exp)
    ensures ReplicasAccountedAt(Apply(c, s), i)
  {
    assert ValidTask(c.p, c.tasks[s.task]);
  }

  lemma RevertLeavesRow(c: Config, t: Id, ok: bool, i: Id, exp: Id)
    requires t in c.tasks && c.tasks[t].Reverting? && HeldByRow(c, i, exp)
    requires c.tasks[t].exp == exp ==> c.tasks[t].revertStage != Loaded
    ensures HeldByRow(AdvanceRevert(c, t, ok), i, exp)
  {
    var d := AdvanceRevert(c, t, ok);
    assert !BeingClosed(c, exp, t);
    forall u ensures !BeingClosed(d, exp, u) {
      assert !BeingClosed(c, exp, u);
    }
  }

  lemma StartLeavesRow(c: Config, t: Id, ok: bool, i: Id, exp: Id)
    requires t in c.tasks && c.tasks[t].Starting? && ValidTask(c.p, c.tasks[t]) && HeldByRow(c, i, exp)
    ensures HeldByRow(AdvanceStart(c, t, ok), i, exp)
  {
    var d := AdvanceStart(c, t, ok);
    forall u ensures !BeingClosed(d, exp, u) {
      assert !BeingClosed(c, exp, u);
    }
  }

  lemma QuietLeavesRow(c: Config, s: Step, i: Id, exp: Id)
    requires Enabled(c, s) && !s.Advance? && HeldByRow(c, i, exp)
    ensures HeldByRow(Apply(c, s), i, exp)
  {
    var d := Apply(c, s);
    forall t ensures !BeingClosed(d, exp, t) {
      assert !BeingClosed(c, exp, t);
    }
  }

  lemma RowStillHolds(c: Config, s: Step, i: Id, exp: Id)
    requires ValidTasks(c) && Enabled(c, s) && HeldByRow(c, i, exp) && !RevertsNow(c, s, exp)
    ensures HeldByRow(Apply(c, s), i, exp)
  {
    if s.Advance? {
      assert ValidTask(c.p, c.tasks[s.task]);
      if c.tasks[s.task].Starting? {
        StartLeavesRow(c, s.task, s.ok, i, exp);
      } else {
        RevertLeavesRow(c, s.task, s.ok, i, exp);
      }
    } else {
      QuietLeavesRow(c, s, i, exp);
    }
  }

  lemma HeldByRowKept(c: Config, s: Step, i: Id, exp: Id)
    requires Inv(c) && Enabled(c, s) && i in c.p.instances && HeldByRow(c, i, exp)
    ensures ReplicasAccountedAt(Apply(c, s), i)
  {
    StepKeepsPlatform(c, s);
    if RevertsNow(c, s, exp) {
      RevertingAccounts(c, s, i, exp);
    } else {
      RowStillHolds(c, s, i, exp);
    }
  }

  lemma StartAccounts(c: Config, t: Id, ok: bool, i: Id)
    requires ValidPlatform(c.p) && t in c.tasks && c.tasks[t].Starting? && ValidTask(c.p, c.tasks[t])
    requires i in c.p.instances && !HeldByStart(c, i, t)
    requires OffMinimum(c.p, i) ==> i in c.stranded
    ensures ReplicasAccountedAt(AdvanceStart(c, t, ok), i)
  {
    var d := AdvanceStart(c, t, ok);
    assert d.p.replicas[i] != c.p.replicas[i] ==> HeldByStart(d, i, t);
  }

  lemma RevertAccounts(c: Config, t: Id, ok: bool, i: Id)
    requires ValidPlatform(c.p) && t in c.tasks && c.tasks[t].Reverting? && ValidTask(c.p, c.tasks[t])
    requires i in c.p.instances && (OffMinimum(c.p, i) ==> i in c.stranded)
    ensures ReplicasAccountedAt(AdvanceRevert(c, t, ok), i)
  {}

  lemma StepKeepsReplicas(c: Config, s: Step, i: Id)
    requires Inv(c) && Enabled(c, s) && i in c.p.instances
    ensures ReplicasAccountedAt(Apply(c, s), i)
  {
    if t :| HeldByStart(c, i, t) {
      HeldByStartKept(c, s, i, t);
    } else if exp :| HeldByRow(c, i, exp) {
      HeldByRowKept(c, s, i, exp);
    } else {
      assert OffMinimum(c.p, i) ==> i in c.stranded;
      if s.Advance? {
        assert ValidTask(c.p, c.tasks[s.task]);
        assert !HeldByStart(c, i, s.task);
        if c.tasks[s.task].Starting? { StartAccounts(c, s.task, s.ok, i); } else { RevertAccounts(c, s.task, s.ok, i); }
      }
    }
  }

  lemma StepKeepsUnderTest(c: Config, s: Step, i: Id)
    requires Inv(c) && Enabled(c, s) && UnderTest(c, i)
    ensures i in Apply(c, s).unresolved || UnderTest(Apply(c, s), i)
      || (s.Advance? && s.ok && ClosedBy(c, i, s.task))
  {
    if t :| AnnouncedBy(c, i, t) {
      AnnouncedKept(c, s, i, t);
    } else if t :| ClosedBy(c, i, t) {
      ClosedKept(c, s, i, t);
    } else {
      var exp :| RunningOn(c, i, exp);
      RunningKept(c, s, i, exp);
    }
  }

  lemma ClosedKept(c: Config, s: Step, i: Id, t: Id)
    requires Enabled(c, s) && ClosedBy(c, i, t)
    ensures i in Apply(c, s).unresolved || ClosedBy(Apply(c, s), i, t) || (s == Advance(t, true))
  {}

  lemma AnnouncedStored(c: Config, t: Id, ok: bool, i: Id)
    requires t in c.tasks && ValidTask(c.p, c.tasks[t]) && AnnouncedBy(c, i, t)
    ensures var d := AdvanceStart(c, t, ok);
      if ok then RunningOn(d, i, c.tasks[t].id) else i in d.unresolved
  {}

  lemma AnnouncedUnmoved(c: Config, s: Step, i: Id, t: Id)
    requires Enabled(c, s) && AnnouncedBy(c, i, t) && (s.Pass? || s.task != t)
    ensures AnnouncedBy(Apply(c, s), i, t)
  {}

  lemma AnnouncedKept(c: Config, s: Step, i: Id, t: Id)
    requires ValidTasks(c) && Enabled(c, s) && AnnouncedBy(c, i, t)
    ensures i in Apply(c, s).unresolved || UnderTest(Apply(c, s), i)
  {
    if s.Pass? || s.task != t {
      AnnouncedUnmoved(c, s, i, t);
    } else if s.Advance? {
      assert ValidTask(c.p, c.tasks[t]);
      AnnouncedStored(c, t, s.ok, i);
    } else {
      assert i in Abandon(c, t).unresolved;
    }
  }

  lemma RunningKept(c: Config, s: Step, i: Id, exp: Id)
    requires ValidTasks(c) && Enabled(c, s) && RunningOn(c, i, exp)
    ensures UnderTest(Apply(c, s), i)
  {
    var d := Apply(c, s);
    if s.Advance? {
      assert ValidTask(c.p, c.tasks[s.task]);
      if c.tasks[s.task].Reverting? && c.tasks[s.task].revertStage == Restored && c.tasks[s.task].exp == exp {
        assert ClosedBy(d, i, s.task);
        return;
      }
    }
    assert RunningOn(d, i, exp);
  }

  ghost predicate Opens(c: Config, s: Step, k: Id) {
    s.Advance? && s.ok && s.task in c.tasks && c.tasks[s.task].Starting? && c.tasks[s.task].startStage == FaultApplied
      && c.tasks[s.task].incident == k
  }

  /** The step that opens an incident belongs to a start that has yet to store its row. */
  lemma OpenedIsAnnounced(c: Config, s: Step, k: Id)
    requires Enabled(c, s) && Opens(c, s, k) && ValidTask(c.p, c.tasks[s.task])
    ensures k in Apply(c, s).p.incidents && AnnouncedBy(Apply(c, s), Apply(c, s).p.incidents[k].instance, s.task)
  {}

  /** Any other step leaves an open incident as it was, or resolves those of its instance. */
  lemma OpenedBefore(c: Config, s: Step, k: Id)
    requires Enabled(c, s) && !Opens(c, s, k)
    requires k in Apply(c, s).p.incidents && Apply(c, s).p.incidents[k].resolvedAt.None?
    ensures k in c.p.incidents && c.p.incidents[k] == Apply(c, s).p.incidents[k]
    ensures !(s.Advance? && s.ok && ClosedBy(c, c.p.incidents[k].instance, s.task))
    ensures c.p.incidents[k].instance in c.unresolved ==> c.p.incidents[k].instance in Apply(c, s).unresolved
  {}

  lemma StepKeepsIncidents(c: Config, s: Step, k: Id)
    requires Inv(c) && Enabled(c, s) && k in Apply(c, s).p.incidents
    requires Apply(c, s).p.incidents[k].resolvedAt.None?
    ensures var d := Apply(c, s);
      d.p.incidents[k].instance in d.unresolved || UnderTest(d, d.p.incidents[k].instance)
  {
    if Opens(c, s, k) {
      assert ValidTask(c.p, c.tasks[s.task]);
      OpenedIsAnnounced(c, s, k);
    } else {
      OpenedBefore(c, s, k);
      if c.p.incidents[k].instance !in c.unresolved {
        StepKeepsUnderTest(c, s, c.p.incidents[k].instance);
      }
    }
  }

  lemma StartKeepsStranded(c: Config, t: Id, ok: bool)
    requires StrandedIsOff(c) && t in c.tasks && c.tasks[t].Starting?
    ensures StrandedIsOff(AdvanceStart(c, t, ok))
  {}

  lemma RevertKeepsStranded(c: Config, t: Id, ok: bool)
    requires StrandedIsOff(c) && t in c.tasks && c.tasks[t].Reverting?
    ensures StrandedIsOff(AdvanceRevert(c, t, ok))
  {}

  lemma StepKeepsStranded(c: Config, s: Step)
    requires StrandedIsOff(c) && Enabled(c, s)
    ensures StrandedIsOff(Apply(c, s))
  {
    if s.Advance? {
      if c.tasks[s.task].Starting? {
        StartKeepsStranded(c, s.task, s.ok);
      } else {
        RevertKeepsStranded(c, s.task, s.ok);
      }
    }
  }

  lemma StepKeepsInv(c: Config, s: Step)
    requires Inv(c) && Enabled(c, s)
    ensures Inv(Apply(c, s))
  {
    var d := Apply(c, s);
    StepKeepsPlatform(c, s);
    StepKeepsTasks(c, s);
    StepKeepsStranded(c, s);
    StepGrows(c, s);
    forall i <- d.p.instances ensures ReplicasAccountedAt(d, i) {
      StepKeepsReplicas(c, s, i);
    }
    forall k <- d.p.incidents | d.p.incidents[k].resolvedAt.None?
      ensures d.p.incidents[k].instance in d.unresolved || UnderTest(d, d.p.incidents[k].instance)
    {
      StepKeepsIncidents(c, s, k);
    }
  }

  lemma InitialInv(c: Config)
    requires Initial(c)
    ensures Inv(c)
  {}

  lemma {:induction false} RunKeepsInv(c: Config, steps: seq<Step>)
    requires Inv(c) && IsRun(c, steps)
    ensures Inv(After(c, steps))
    decreases |steps|
  {
    if |steps| > 0 {
      StepKeepsInv(c, steps[0]);
      RunKeepsInv(Apply(c, steps[0]), steps[1..]);
    }
  }
}
