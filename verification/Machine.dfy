/** The parallel executor (pkg/graph/executor.go) as a transition system.

    Each locked `ExecutionState` call, each answer of `Apply` or of the readiness wait, each backoff
    and each pool hand-over is one step, and each node's goroutine has its own program counter into
    `executeNode`. A run is an arbitrary schedule of actions, so what is proved of all schedules
    holds for every interleaving. */
module Machine {
  import opened Common
  import opened DagBuilder
  import opened NodeStates

  datatype Config = Config(dag: Dag, maxConcurrency: nat, maxRetries: int)

  /** The pool library rejects a limit below one. */
  ghost predicate ValidConfig(c: Config) {
    WellFormed(c.dag) && c.maxConcurrency >= 1
  }

  /** Program counter of one goroutine in `executeNode`; named after what happens next. */
  datatype Pc =
    | Queued        // handed to the pool, not started
    | Starting      // started, about to read its own state
    | Backoff       // in the select between the timer and cancellation
    | Retrying      // about to increment the retry count
    | ToApplying    // about to request Applying
    | Refused       // a transition was refused, about to record that error
    | ToApply       // about to call Apply
    | InApply       // Apply is running
    | ApplyFailed   // Apply returned an error, about to record it
    | AfterApply    // Apply succeeded, about to look at the readiness predicates
    | ToWaiting     // about to request WaitingReady
    | Polling       // in waitForReadiness
    | NotReady      // the wait failed, about to record that
    | ToReady       // about to request Ready
    | Done

  /** Program counter of `Execute` itself. */
  datatype MainPc = LoopHead | CheckContext | FindReady | InWave | Finishing | Returned(err: bool)

  /** `waves`, `applyCalls` and `before` (the statuses when the current wave began) only record
      history; no step depends on them. */
  datatype World = World(
    nodes: Statuses, endTime: Option<int>,
    main: MainPc, pcs: map<string, Pc>, cancelled: bool,
    waves: nat, applyCalls: map<string, nat>, before: Statuses)

  /** `ok` is the answer received where one is received: the timer firing rather than cancellation
      in `Backoff`, a nil error from `Apply` or from `waitForReadiness`. */
  datatype Action =
    | Cancel
    | MainStep(now: int)
    | NodeStep(id: string, ok: bool, now: int, msg: string)

  function Deps(c: Config, id: string): seq<string> {
    if id in c.dag.nodeMap then c.dag.nodeMap[id].dependsOn else []
  }

  predicate NeedsReadiness(c: Config, id: string) {
    id in c.dag.nodeMap && |c.dag.nodeMap[id].readyWhen| > 0
  }

  predicate IsReady(m: Statuses, id: string) {
    id in m && m[id].state == Ready
  }

  predicate DepsReady(c: Config, m: Statuses, id: string) {
    forall d :: d in Deps(c, id) ==> IsReady(m, d)
  }

  /** Waiting for its first attempt, or failed with retries left. */
  predicate MayStart(maxRetries: int, s: NodeStatus) {
    s.state == Pending || (s.state == Error && s.retryCount < maxRetries)
  }

  predicate Selected(c: Config, m: Statuses, id: string) {
    id in m && MayStart(c.maxRetries, m[id]) && DepsReady(c, m, id)
  }

  /** `findReadyNodes` over the first `k` nodes of the order. */
  function ReadyNodes(c: Config, m: Statuses, k: nat): seq<string>
    requires k <= |c.dag.order|
  {
    if k == 0 then []
    else ReadyNodes(c, m, k - 1) + (if Selected(c, m, c.dag.order[k - 1]) then [c.dag.order[k - 1]] else [])
  }

  function Init(c: Config): World {
    World(NewStatuses(c.dag.order), None, LoopHead, map[], false, 0, map id | id in c.dag.order :: 0, map[])
  }

  predicate Running(pc: Pc) {
    pc != Queued && pc != Done
  }

  function RunningNodes(w: World): set<string> {
    set id | id in w.pcs && Running(w.pcs[id])
  }

  // ---- steps ----

  predicate Enabled(c: Config, w: World, a: Action) {
    match a
    case Cancel => !w.cancelled
    case MainStep(_) =>
      match w.main {
        case Returned(_) => false
        case InWave => forall id :: id in w.pcs ==> w.pcs[id] == Done
        case _ => true
      }
    case NodeStep(id, ok, _, _) =>
      && w.main == InWave && id in w.pcs && id in w.nodes && id in w.applyCalls
      && match w.pcs[id] {
           case Queued => |RunningNodes(w)| < c.maxConcurrency
           case Backoff => ok || w.cancelled
           case Done => false
           case _ => true
         }
  }

  function Act(c: Config, w: World, a: Action): World
    requires Enabled(c, w, a)
  {
    match a
    case Cancel => w.(cancelled := true)
    case MainStep(now) => ActMain(c, w, now)
    case NodeStep(id, ok, now, msg) => ActNode(c, w, id, ok, now, msg)
  }

  /** One step of the wave loop in `Execute`. */
  function ActMain(c: Config, w: World, now: int): World {
    match w.main
    case LoopHead => w.(main := if Complete(w.nodes) then Finishing else CheckContext)
    case CheckContext => w.(main := if w.cancelled then Returned(true) else FindReady)
    case FindReady => StartWave(w, ReadyNodes(c, w.nodes, |c.dag.order|))
    case InWave => w.(main := LoopHead, pcs := map[])
    case Finishing => w.(main := Returned(false), endTime := Some(now))
    case Returned(_) => w
  }

  /** The ready nodes are handed to the pool; without any, the loop ends. */
  function StartWave(w: World, ready: seq<string>): World {
    if ready == [] then w.(main := Finishing)
    else w.(main := InWave, pcs := map id | id in ready :: Queued, waves := w.waves + 1, before := w.nodes)
  }

  /** What a goroutine step may change: its node's status, its program counter, its Apply count. */
  datatype Local = Local(status: NodeStatus, pc: Pc, calls: nat)

  /** A state change is requested; a refusal leads to recording an error. */
  function Request(l: Local, to: NodeState, now: int, next: Pc): Local {
    if to in Allowed(l.status.state)
    then l.(status := Moved(l.status, to, now), pc := next)
    else l.(pc := Refused)
  }

  /** An error is recorded and the goroutine returns. */
  function Fail(l: Local, msg: string): Local {
    l.(status := Failed(l.status, msg), pc := Done)
  }

  /** One step of `executeNode`; `polls` says whether the node has readiness predicates. Node IDs
      come from the order, so the lookup that opens `executeNode` succeeds. */
  function StepLocal(l: Local, polls: bool, ok: bool, now: int, msg: string): Local {
    match l.pc
    case Queued => l.(pc := Starting)
    case Starting => l.(pc := if l.status.state == Error then Backoff else ToApplying)
    case Backoff => l.(pc := if ok then Retrying else Done)
    case Retrying => l.(status := Retried(l.status, now), pc := ToApplying)
    case ToApplying => Request(l, Applying, now, ToApply)
    case Refused => Fail(l, msg)
    case ToApply => l.(calls := l.calls + 1, pc := InApply)
    case InApply => l.(pc := if ok then AfterApply else ApplyFailed)
    case ApplyFailed => Fail(l, msg)
    case AfterApply => l.(pc := if polls then ToWaiting else ToReady)
    case ToWaiting => Request(l, WaitingReady, now, Polling)
    case Polling => l.(pc := if ok then ToReady else NotReady)
    case NotReady => Fail(l, msg)
    case ToReady => Request(l, Ready, now, Done)
    case Done => l
  }

  function ActNode(c: Config, w: World, id: string, ok: bool, now: int, msg: string): World
    requires id in w.pcs && id in w.nodes && id in w.applyCalls
  {
    var l := StepLocal(Local(w.nodes[id], w.pcs[id], w.applyCalls[id]), NeedsReadiness(c, id), ok, now, msg);
    w.(nodes := w.nodes[id := l.status], pcs := w.pcs[id := l.pc], applyCalls := w.applyCalls[id := l.calls])
  }

  // ---- runs ----

  ghost predicate Schedulable(c: Config, w: World, sched: seq<Action>)
    decreases |sched|
  {
    sched == [] || (Enabled(c, w, sched[0]) && Schedulable(c, Act(c, w, sched[0]), sched[1..]))
  }

  /** The world after a schedule. */
  ghost function After(c: Config, w: World, sched: seq<Action>): World
    requires Schedulable(c, w, sched)
    decreases |sched|
  {
    if sched == [] then w else After(c, Act(c, w, sched[0]), sched[1..])
  }

  // ---- fixed outcomes ----

  /** Which nodes `Apply` accepts, and which become ready in time. */
  datatype Outcomes = Outcomes(applies: set<string>, becomesReady: set<string>)

  predicate Succeeds(c: Config, o: Outcomes, id: string) {
    id in o.applies && (NeedsReadiness(c, id) ==> id in o.becomesReady)
  }

  /** The answers in `a` agree with the fixed outcomes. */
  predicate Agrees(o: Outcomes, w: World, a: Action) {
    a.NodeStep? && a.id in w.pcs ==>
      && (w.pcs[a.id] == InApply ==> (a.ok <==> a.id in o.applies))
      && (w.pcs[a.id] == Polling ==> (a.ok <==> a.id in o.becomesReady))
  }

  ghost predicate AllAgree(c: Config, o: Outcomes, w: World, sched: seq<Action>)
    requires Schedulable(c, w, sched)
    decreases |sched|
  {
    sched == [] || (Agrees(o, w, sched[0]) && AllAgree(c, o, Act(c, w, sched[0]), sched[1..]))
  }
}
