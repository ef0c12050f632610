/** What each step of the executor does, written out over program counters and status fields, and what
    follows for whole runs. */
module StepMeaning {
  import opened Common
  import opened DagBuilder
  import opened NodeStates
  import opened Machine
  import opened Invariant
  import opened Safety

  // ---- which steps are possible ----

  /** The goroutines that have started and not ended. */
  function Started(w: World): set<string> {
    set id | id in w.pcs && w.pcs[id] != Queued && w.pcs[id] != Done
  }

  /** Cancellation can come at any time, once. Every started goroutine can always take its next step, and
      whatever answer it waits for may be good or bad, except that a backoff is cut short only by
      cancellation. A queued one can start iff fewer than MaxConcurrency are running. The loop waits only
      for the wave to end. */
  lemma PossibleSteps(c: Config, w: World, id: string, ok: bool, now: int, msg: string)
    requires id in w.nodes && id in w.applyCalls
    ensures Enabled(c, w, Cancel) <==> !w.cancelled
    ensures Enabled(c, w, NodeStep(id, ok, now, msg)) <==>
              && w.main == InWave && id in w.pcs && w.pcs[id] != Done
              && (w.pcs[id] == Queued ==> |Started(w)| < c.maxConcurrency)
              && (w.pcs[id] == Backoff && !ok ==> w.cancelled)
    ensures Enabled(c, w, MainStep(now)) <==>
              !w.main.Returned? && (w.main == InWave ==> forall x :: x in w.pcs ==> w.pcs[x] == Done)
  {
    assert Started(w) == RunningNodes(w);
  }

  // ---- steps of the wave loop ----

  /** Pending, or in Error with retries left, and everything it lists as a dependency is Ready. */
  ghost predicate CanStart(c: Config, m: Statuses, id: string) {
    && id in c.dag.nodeMap && id in m
    && (m[id].state == Pending || (m[id].state == Error && m[id].retryCount < c.maxRetries))
    && forall d :: d in c.dag.nodeMap[id].dependsOn ==> d in m && m[d].state == Ready
  }

  lemma CanStartMeaning(c: Config, m: Statuses, id: string)
    requires WellFormed(c.dag)
    ensures id in ReadyNodes(c, m, |c.dag.order|) <==> CanStart(c, m, id)
  {
    ReadyNodesAll(c, m, id);
    if id in c.dag.nodeMap {
      assert Deps(c, id) == c.dag.nodeMap[id].dependsOn;
      assert DepsReady(c, m, id) <==> forall d :: d in c.dag.nodeMap[id].dependsOn ==> IsReady(m, d);
    }
  }

  lemma NoneToStart(ready: seq<string>)
    ensures ready == [] <==> forall id :: id !in ready
  {
    if ready != [] {
      assert ready[0] in ready;
    }
  }

  /** The wave loop: it ends with nil when every node is Ready or Error or none can start, with an error when
      it sees the cancellation; otherwise it runs exactly the nodes that can start. It changes no status. */
  lemma LoopStep(c: Config, w: World, now: int)
    requires WellFormed(c.dag) && Enabled(c, w, MainStep(now))
    ensures var w' := Act(c, w, MainStep(now));
            && w'.nodes == w.nodes && w'.applyCalls == w.applyCalls && w'.cancelled == w.cancelled
            && w'.endTime == (if w.main == Finishing then Some(now) else w.endTime)
            && w'.main == (match w.main
                           case LoopHead =>
                             if forall id :: id in w.nodes ==> w.nodes[id].state in {Ready, Error} then Finishing
                             else CheckContext
                           case CheckContext => if w.cancelled then Returned(true) else FindReady
                           case FindReady => if forall id :: !CanStart(c, w.nodes, id) then Finishing else InWave
                           case InWave => LoopHead
                           case Finishing => Returned(false))
            && (w'.main == InWave ==> w'.waves == w.waves + 1 && forall id ::
                  (id in w'.pcs <==> CanStart(c, w.nodes, id)) && (id in w'.pcs ==> w'.pcs[id] == Queued))
            && (w'.main != InWave ==> w'.waves == w.waves)
  {
    var ready := ReadyNodes(c, w.nodes, |c.dag.order|);
    forall id ensures id in ready <==> CanStart(c, w.nodes, id) {
      CanStartMeaning(c, w.nodes, id);
    }
    NoneToStart(ready);
    assert Complete(w.nodes) <==> forall id :: id in w.nodes ==> w.nodes[id].state in {Ready, Error};
  }

  // ---- steps of a goroutine ----

  /** Where a goroutine goes next. */
  function NextPc(pc: Pc, state: NodeState, hasPredicates: bool, ok: bool): Pc {
    match pc
    case Queued => Starting
    case Starting => if state == Error then Backoff else ToApplying
    case Backoff => if ok then Retrying else Done
    case Retrying => ToApplying
    case ToApplying => if state == Pending then ToApply else Refused
    case Refused => Done
    case ToApply => InApply
    case InApply => if ok then AfterApply else ApplyFailed
    case ApplyFailed => Done
    case AfterApply => if hasPredicates then ToWaiting else ToReady
    case ToWaiting => Polling
    case Polling => if ok then ToReady else NotReady
    case NotReady => Done
    case ToReady => Done
    case Done => Done
  }

  /** What becomes of the node's status. */
  function NextStatus(pc: Pc, s: NodeStatus, now: int, msg: string): NodeStatus {
    match pc
    case Retrying => NodeStatus(s.state, s.error, s.startTime, s.readyTime, s.retryCount + 1, Some(now))
    case ToApplying => if s.state == Pending
                       then NodeStatus(Applying, s.error, Some(now), s.readyTime, s.retryCount, s.lastRetryTime)
                       else s
    case ToWaiting => NodeStatus(WaitingReady, s.error, s.startTime, s.readyTime, s.retryCount, s.lastRetryTime)
    case ToReady => NodeStatus(Ready, s.error, s.startTime, Some(now), s.retryCount, s.lastRetryTime)
    case Refused => NodeStatus(Error, msg, s.startTime, s.readyTime, s.retryCount, s.lastRetryTime)
    case ApplyFailed => NodeStatus(Error, msg, s.startTime, s.readyTime, s.retryCount, s.lastRetryTime)
    case NotReady => NodeStatus(Error, msg, s.startTime, s.readyTime, s.retryCount, s.lastRetryTime)
    case _ => s
  }

  lemma LocalStep(maxRetries: int, polls: bool, l: Local, ok: bool, now: int, msg: string)
    requires LocalInv(maxRetries, polls, l)
    ensures StepLocal(l, polls, ok, now, msg) ==
              Local(NextStatus(l.pc, l.status, now, msg), NextPc(l.pc, l.status.state, polls, ok),
                    l.calls + (if l.pc == ToApply then 1 else 0))
  {
    match l.pc
    case ToApplying => AllowedMeaning(l.status.state, Applying);
    case ToWaiting => AllowedMeaning(l.status.state, WaitingReady);
    case ToReady => AllowedMeaning(l.status.state, Ready);
    case _ =>
  }

  /** In every reachable state a goroutine's step does exactly this, and touches no other node. */
  lemma GoroutineStepMeaning(c: Config, w: World, a: Action)
    requires ValidConfig(c) && Reachable(c, w) && Enabled(c, w, a) && a.NodeStep?
    ensures a.id in c.dag.nodeMap
    ensures var w', pc, s := Act(c, w, a), w.pcs[a.id], w.nodes[a.id];
            && w'.nodes == w.nodes[a.id := NextStatus(pc, s, a.now, a.msg)]
            && w'.pcs == w.pcs[a.id := NextPc(pc, s.state, c.dag.nodeMap[a.id].readyWhen != [], a.ok)]
            && w'.applyCalls == w.applyCalls[a.id := w.applyCalls[a.id] + (if pc == ToApply then 1 else 0)]
            && w'.main == w.main && w'.cancelled == w.cancelled && w'.endTime == w.endTime && w'.waves == w.waves
  {
    ReachableInv(c, w);
    assert NodeInv(c, w, a.id);
    LocalStep(c.maxRetries, NeedsReadiness(c, a.id), Local(w.nodes[a.id], w.pcs[a.id], w.applyCalls[a.id]),
              a.ok, a.now, a.msg);
  }

  // ---- no Ready without a good readiness answer ----

  /** On the way, the readiness wait of `id` is answered well. */
  ghost predicate AnsweredReady(c: Config, w: World, sched: seq<Action>, id: string)
    requires Schedulable(c, w, sched)
    decreases |sched|
  {
    sched != [] &&
    (|| (sched[0].NodeStep? && sched[0].id == id && sched[0].ok && id in w.pcs && w.pcs[id] == Polling)
     || AnsweredReady(c, Act(c, w, sched[0]), sched[1..], id))
  }

  predicate PastPolling(w: World, id: string) {
    IsReady(w.nodes, id) || (id in w.pcs && w.pcs[id] == ToReady)
  }

  lemma StepToPastPolling(c: Config, w: World, a: Action, id: string)
    requires ValidConfig(c) && Inv(c, w) && Enabled(c, w, a)
    requires id in c.dag.nodeMap && c.dag.nodeMap[id].readyWhen != []
    requires !PastPolling(w, id) && PastPolling(Act(c, w, a), id)
    ensures a.NodeStep? && a.id == id && a.ok && id in w.pcs && w.pcs[id] == Polling
  {
    assert NodeInv(c, w, id);
    match a
    case Cancel =>
    case MainStep(now) =>
      if w.main == FindReady {
        WaveStart(c, w, now, id);
      }
    case NodeStep(x, ok, now, msg) =>
      if x == id {
        LocalStep(c.maxRetries, NeedsReadiness(c, id), Local(w.nodes[id], w.pcs[id], w.applyCalls[id]), ok, now, msg);
      }
  }

  lemma {:induction false} AnsweredOnTheWay(c: Config, w: World, sched: seq<Action>, id: string)
    requires ValidConfig(c) && Inv(c, w) && Schedulable(c, w, sched)
    requires id in c.dag.nodeMap && c.dag.nodeMap[id].readyWhen != []
    requires !PastPolling(w, id) && PastPolling(After(c, w, sched), id)
    ensures AnsweredReady(c, w, sched, id)
    decreases |sched|
  {
    var w' := Act(c, w, sched[0]);
    if PastPolling(w', id) {
      StepToPastPolling(c, w, sched[0], id);
    } else {
      ActKeepsInv(c, w, sched[0]);
      AnsweredOnTheWay(c, w', sched[1..], id);
    }
  }

  /** In every run, a node with readiness predicates is Ready only after its readiness wait was answered
      well. */
  lemma ReadyNeedsAnswer(c: Config, w: World, sched: seq<Action>, id: string)
    requires ValidConfig(c) && ReachedBy(c, w, sched) && IsReady(w.nodes, id)
    requires id in c.dag.nodeMap && c.dag.nodeMap[id].readyWhen != []
    ensures AnsweredReady(c, Init(c), sched, id)
  {
    InitInv(c);
    AnsweredOnTheWay(c, Init(c), sched, id);
  }

  // ---- cancellation ----

  lemma CancelledAct(c: Config, w: World, a: Action)
    requires w.cancelled && w.main != FindReady && Enabled(c, w, a)
    ensures var w' := Act(c, w, a); w'.cancelled && w'.main != FindReady && w'.waves == w.waves
  {
  }

  /** Once the run is cancelled no further wave starts, except one whose nodes are being selected just then. */
  lemma {:induction false} CancelledStartsNoWave(c: Config, w: World, sched: seq<Action>)
    requires w.cancelled && Schedulable(c, w, sched)
    ensures After(c, w, sched).waves <= w.waves + (if w.main == FindReady then 1 else 0)
    decreases |sched|
  {
    if sched != [] {
      var w' := Act(c, w, sched[0]);
      CancelledStartsNoWave(c, w', sched[1..]);
      if w.main != FindReady {
        CancelledAct(c, w, sched[0]);
      } else {
        SelectionAct(c, w, sched[0]);
      }
    }
  }

  lemma SelectionAct(c: Config, w: World, a: Action)
    requires w.cancelled && w.main == FindReady && Enabled(c, w, a)
    ensures var w' := Act(c, w, a); w'.cancelled && w'.main != FindReady && w'.waves <= w.waves + 1
  {
  }
}
