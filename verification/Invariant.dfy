/** What every step of the executor keeps. */
module Invariant {
  import opened DagBuilder
  import opened NodeStates
  import opened Machine

  /** The number of retries a node may use; a negative limit allows none, like zero. */
  function Budget(maxRetries: int): nat {
    if maxRetries < 0 then 0 else maxRetries
  }

  /** What a goroutine knows about its own node at each program counter. */
  predicate PcInv(maxRetries: int, polls: bool, s: NodeStatus, pc: Pc) {
    match pc
    case Queued => MayStart(maxRetries, s)
    case Starting => MayStart(maxRetries, s)
    case Backoff => s.state == Error && s.retryCount < maxRetries
    case Retrying => s.state == Error && s.retryCount < maxRetries
    case ToApplying => s.state == Pending || s.state == Error
    case Refused => s.state == Error
    case ToApply => s.state == Applying
    case InApply => s.state == Applying
    case ApplyFailed => s.state == Applying
    case AfterApply => s.state == Applying
    case ToWaiting => s.state == Applying && polls
    case Polling => s.state == WaitingReady && polls
    case NotReady => s.state == WaitingReady && polls
    case ToReady => s.state == (if polls then WaitingReady else Applying)
    case Done => s.state == Ready || s.state == Error
  }

  /** The time stamps tell the history: a start time once the node has left Pending, a ready time exactly
      when it is Ready, a last retry time exactly when it was retried. */
  predicate Stamped(s: NodeStatus) {
    && (s.startTime.Some? <==> s.state != Pending)
    && (s.readyTime.Some? <==> s.state == Ready)
    && (s.lastRetryTime.Some? <==> s.retryCount > 0)
  }

  /** `Apply` has been called exactly for the nodes that left Pending and are past the call. */
  predicate LocalInv(maxRetries: int, polls: bool, l: Local) {
    && PcInv(maxRetries, polls, l.status, l.pc) && Stamped(l.status)
    && l.status.retryCount <= Budget(maxRetries)
    && l.calls == (if l.status.state == Pending || l.pc == ToApply then 0 else 1)
  }

  /** A step of a goroutine keeps what it knows, whatever answer it gets. */
  lemma StepLocalKeeps(maxRetries: int, polls: bool, l: Local, ok: bool, now: int, msg: string)
    requires LocalInv(maxRetries, polls, l)
    ensures LocalInv(maxRetries, polls, StepLocal(l, polls, ok, now, msg))
    ensures l.pc != Done ==> l.status.state != Ready
    ensures l.status.state != Pending ==> StepLocal(l, polls, ok, now, msg).status.state != Pending
  {
    match l.pc
    case ToApplying => TableShape(l.status.state, Applying);
    case ToWaiting => TableShape(l.status.state, WaitingReady);
    case ToReady => TableShape(l.status.state, Ready);
    case _ =>
  }

  /** A node outside the current wave. */
  predicate IdleInv(c: Config, s: NodeStatus, calls: nat) {
    && s.state != Applying && s.state != WaitingReady && Stamped(s)
    && s.retryCount <= Budget(c.maxRetries)
    && calls == (if s.state == Pending then 0 else 1)
  }

  ghost predicate NodeInv(c: Config, w: World, id: string)
    requires id in w.nodes && id in w.applyCalls
  {
    // A node leaves Pending, or enters a wave, only when all its dependencies are Ready.
    && (w.nodes[id].state != Pending || id in w.pcs ==> DepsReady(c, w.nodes, id))
    && (if id in w.pcs
        then LocalInv(c.maxRetries, NeedsReadiness(c, id), Local(w.nodes[id], w.pcs[id], w.applyCalls[id]))
        else IdleInv(c, w.nodes[id], w.applyCalls[id]))
  }

  ghost predicate NodesInv(c: Config, w: World) {
    && w.nodes.Keys == w.applyCalls.Keys == c.dag.nodeMap.Keys
    && w.pcs.Keys <= w.nodes.Keys
    && forall id {:trigger NodeInv(c, w, id)} :: id in w.nodes ==> NodeInv(c, w, id)
  }

  /** What the position of the wave loop says. */
  ghost predicate MainInv(c: Config, w: World) {
    && (w.main != InWave ==> w.pcs == map[])
    && (w.main == Returned(true) ==> w.cancelled)
    && (w.main == Returned(false) <==> w.endTime.Some?)
    && (w.main == CheckContext || w.main == FindReady || w.main == Returned(true) ==> !Complete(w.nodes))
    && (w.main == Finishing || w.main == Returned(false) ==>
          Complete(w.nodes) || ReadyNodes(c, w.nodes, |c.dag.order|) == [])
  }

  ghost predicate Inv(c: Config, w: World) {
    NodesInv(c, w) && MainInv(c, w) && |RunningNodes(w)| <= c.maxConcurrency
  }

  // ---- findReadyNodes ----

  lemma {:induction false} ReadyNodesExact(c: Config, m: Statuses, k: nat, id: string)
    requires k <= |c.dag.order|
    ensures id in ReadyNodes(c, m, k) <==> id in c.dag.order[..k] && Selected(c, m, id)
  {
    if k > 0 {
      ReadyNodesExact(c, m, k - 1, id);
      assert c.dag.order[..k] == c.dag.order[..k - 1] + [c.dag.order[k - 1]];
    }
  }

  /** Over the whole order: exactly the eligible nodes whose dependencies are all Ready. */
  lemma ReadyNodesAll(c: Config, m: Statuses, id: string)
    requires WellFormed(c.dag)
    ensures id in ReadyNodes(c, m, |c.dag.order|) <==> id in c.dag.nodeMap && Selected(c, m, id)
  {
    ReadyNodesExact(c, m, |c.dag.order|, id);
    assert c.dag.order[..|c.dag.order|] == c.dag.order;
  }

  /** The selected nodes come in the order of the DAG. */
  lemma {:induction false} ReadyNodesInOrder(c: Config, m: Statuses, k: nat, i: nat, j: nat)
    requires k <= |c.dag.order| && i < j < |ReadyNodes(c, m, k)|
    ensures exists p, q :: 0 <= p < q < k && c.dag.order[p] == ReadyNodes(c, m, k)[i]
                           && c.dag.order[q] == ReadyNodes(c, m, k)[j]
  {
    var before := ReadyNodes(c, m, k - 1);
    if j < |before| {
      ReadyNodesInOrder(c, m, k - 1, i, j);
    } else {
      ReadyNodesExact(c, m, k - 1, before[i]);
      assert before[i] in before;
      var p :| 0 <= p < |c.dag.order[..k - 1]| && c.dag.order[..k - 1][p] == before[i];
      assert c.dag.order[p] == before[i] && c.dag.order[k - 1] == ReadyNodes(c, m, k)[j];
    }
  }

  // ---- the invariant holds initially and is kept ----

  lemma InitInv(c: Config)
    requires ValidConfig(c)
    ensures Inv(c, Init(c))
  {
  }

  /** A wave starts with exactly the selected nodes, all queued. */
  lemma WaveStart(c: Config, w: World, now: int, id: string)
    requires ValidConfig(c) && w.main == FindReady && w.pcs == map[]
    ensures id in ActMain(c, w, now).pcs ==>
              && ActMain(c, w, now).pcs[id] == Queued
              && id in c.dag.nodeMap && Selected(c, w.nodes, id)
  {
    ReadyNodesAll(c, w.nodes, id);
  }

  /** The wave loop touches no status; outside a wave no node is being worked on. */
  lemma MainKeepsNodeInv(c: Config, w: World, now: int, id: string)
    requires ValidConfig(c) && Enabled(c, w, MainStep(now)) && (w.main != InWave ==> w.pcs == map[])
    requires id in w.nodes && id in w.applyCalls && NodeInv(c, w, id)
    ensures var w' := ActMain(c, w, now);
            w'.nodes == w.nodes && w'.applyCalls == w.applyCalls && NodeInv(c, w', id)
  {
    if w.main == FindReady {
      WaveStart(c, w, now, id);
    }
  }

  lemma MainKeepsNodesInv(c: Config, w: World, now: int)
    requires ValidConfig(c) && Inv(c, w) && Enabled(c, w, MainStep(now))
    ensures NodesInv(c, ActMain(c, w, now))
  {
    forall id | id in w.nodes ensures NodeInv(c, ActMain(c, w, now), id) {
      MainKeepsNodeInv(c, w, now, id);
    }
    if w.main == FindReady {
      forall id | id in ActMain(c, w, now).pcs ensures id in w.nodes {
        WaveStart(c, w, now, id);
      }
    }
  }

  lemma MainKeepsInv(c: Config, w: World, now: int)
    requires ValidConfig(c) && Inv(c, w) && Enabled(c, w, MainStep(now))
    ensures Inv(c, ActMain(c, w, now))
  {
    MainKeepsNodesInv(c, w, now);
    assert RunningNodes(ActMain(c, w, now)) == {};
  }

  /** A moving node is not Ready, so nobody loses a Ready dependency. */
  lemma DepsStayReady(c: Config, m: Statuses, id: string, s: NodeStatus, x: string)
    requires id in m && m[id].state != Ready
    requires DepsReady(c, m, x)
    ensures DepsReady(c, m[id := s], x)
  {
  }

  /** The moving node keeps its own invariant. */
  lemma OwnStepKeepsInv(c: Config, w: World, id: string, ok: bool, now: int, msg: string)
    requires id in w.nodes && id in w.applyCalls && NodeInv(c, w, id) && Enabled(c, w, NodeStep(id, ok, now, msg))
    ensures w.nodes[id].state != Ready
    ensures var w' := ActNode(c, w, id, ok, now, msg); NodeInv(c, w', id)
  {
    var w' := ActNode(c, w, id, ok, now, msg);
    var l := Local(w.nodes[id], w.pcs[id], w.applyCalls[id]);
    StepLocalKeeps(c.maxRetries, NeedsReadiness(c, id), l, ok, now, msg);
    DepsStayReady(c, w.nodes, id, w'.nodes[id], id);
  }

  /** Every other node keeps its invariant, since no dependency stops being Ready. */
  lemma OtherStepKeepsInv(c: Config, w: World, id: string, ok: bool, now: int, msg: string, x: string)
    requires id in w.nodes && id in w.applyCalls && w.nodes[id].state != Ready
    requires Enabled(c, w, NodeStep(id, ok, now, msg))
    requires x != id && x in w.nodes && x in w.applyCalls && NodeInv(c, w, x)
    ensures NodeInv(c, ActNode(c, w, id, ok, now, msg), x)
  {
  }

  lemma NodeKeepsNodesInv(c: Config, w: World, id: string, ok: bool, now: int, msg: string)
    requires NodesInv(c, w) && Enabled(c, w, NodeStep(id, ok, now, msg))
    ensures NodesInv(c, ActNode(c, w, id, ok, now, msg))
  {
    OwnStepKeepsInv(c, w, id, ok, now, msg);
    forall x | x in w.nodes ensures NodeInv(c, ActNode(c, w, id, ok, now, msg), x) {
      if x != id {
        OtherStepKeepsInv(c, w, id, ok, now, msg, x);
      }
    }
  }

  lemma RunningBounded(c: Config, w: World, id: string, pc: Pc)
    requires |RunningNodes(w)| <= c.maxConcurrency && id in w.pcs
    requires !Running(w.pcs[id]) ==> |RunningNodes(w)| < c.maxConcurrency
    ensures |RunningNodes(w.(pcs := w.pcs[id := pc]))| <= c.maxConcurrency
  {
    var w' := w.(pcs := w.pcs[id := pc]);
    if Running(pc) {
      assert RunningNodes(w') == RunningNodes(w) + {id};
    } else {
      assert RunningNodes(w') == RunningNodes(w) - {id};
    }
  }

  lemma NodeKeepsInv(c: Config, w: World, id: string, ok: bool, now: int, msg: string)
    requires ValidConfig(c) && Inv(c, w) && Enabled(c, w, NodeStep(id, ok, now, msg))
    ensures Inv(c, ActNode(c, w, id, ok, now, msg))
  {
    var w' := ActNode(c, w, id, ok, now, msg);
    NodeKeepsNodesInv(c, w, id, ok, now, msg);
    RunningBounded(c, w, id, w'.pcs[id]);
    assert RunningNodes(w') == RunningNodes(w.(pcs := w.pcs[id := w'.pcs[id]]));
  }

  lemma ActKeepsInv(c: Config, w: World, a: Action)
    requires ValidConfig(c) && Inv(c, w) && Enabled(c, w, a)
    ensures Inv(c, Act(c, w, a))
  {
    match a
    case Cancel =>
      var w' := Act(c, w, a);
      assert RunningNodes(w') == RunningNodes(w);
      forall id | id in w'.nodes ensures NodeInv(c, w', id) {
        assert NodeInv(c, w, id);
      }
    case MainStep(now) => MainKeepsInv(c, w, now);
    case NodeStep(id, ok, now, msg) => NodeKeepsInv(c, w, id, ok, now, msg);
  }

  /** Every state of every run satisfies the invariant. */
  lemma {:induction false} RunKeepsInv(c: Config, w: World, sched: seq<Action>)
    requires ValidConfig(c) && Inv(c, w) && Schedulable(c, w, sched)
    ensures Inv(c, After(c, w, sched))
    decreases |sched|
  {
    if sched != [] {
      ActKeepsInv(c, w, sched[0]);
      RunKeepsInv(c, Act(c, w, sched[0]), sched[1..]);
    }
  }
}
