/** Safety of the executor in every reachable state of every interleaving. */
module Safety {
  import opened Paths
  import opened DagBuilder
  import opened NodeStates
  import opened Machine
  import opened Invariant

  ghost predicate ReachedBy(c: Config, w: World, sched: seq<Action>) {
    Schedulable(c, Init(c), sched) && After(c, Init(c), sched) == w
  }

  ghost predicate Reachable(c: Config, w: World) {
    exists sched :: ReachedBy(c, w, sched)
  }

  lemma ReachableInv(c: Config, w: World)
    requires ValidConfig(c) && Reachable(c, w)
    ensures Inv(c, w)
  {
    var sched :| ReachedBy(c, w, sched);
    InitInv(c);
    RunKeepsInv(c, Init(c), sched);
  }

  function GraphEdges(c: Config): Edges {
    DepEdges(c.dag.nodeMap)
  }

  // ---- Ready is permanent ----

  lemma ActKeepsReady(c: Config, w: World, a: Action, id: string)
    requires Inv(c, w) && Enabled(c, w, a) && IsReady(w.nodes, id)
    ensures IsReady(Act(c, w, a).nodes, id)
  {
    assert NodeInv(c, w, id);
  }

  /** Although `SetError` is unguarded, no run ever takes a node out of Ready. */
  lemma {:induction false} ReadyIsPermanent(c: Config, w: World, sched: seq<Action>, id: string)
    requires ValidConfig(c) && Inv(c, w) && Schedulable(c, w, sched) && IsReady(w.nodes, id)
    ensures IsReady(After(c, w, sched).nodes, id)
    decreases |sched|
  {
    if sched != [] {
      ActKeepsInv(c, w, sched[0]);
      ActKeepsReady(c, w, sched[0], id);
      ReadyIsPermanent(c, Act(c, w, sched[0]), sched[1..], id);
    }
  }

  // ---- dependencies ----

  /** All transitive dependencies of a node that has left Pending, or is in a wave, are Ready. */
  lemma {:induction false} AncestorsReady(c: Config, w: World, p: seq<string>, a: string, id: string)
    requires NodesInv(c, w) && id in w.nodes && (w.nodes[id].state != Pending || id in w.pcs)
    requires PathFromTo(GraphEdges(c), p, a, id) && |p| >= 2
    ensures IsReady(w.nodes, a)
    decreases |p|
  {
    var m := p[|p| - 2];
    assert (m, id) in GraphEdges(c);
    assert NodeInv(c, w, id);
    assert IsReady(w.nodes, m);
    if |p| > 2 {
      assert PathFromTo(GraphEdges(c), p[..|p| - 1], a, m);
      AncestorsReady(c, w, p[..|p| - 1], a, m);
    }
  }

  /** Dependency safety: when `Apply` is called for `id`, every transitive dependency of `id` is
      Ready, and stays Ready however the run continues. */
  lemma DependencySafety(c: Config, w: World, id: string, rest: seq<Action>, a: string)
    requires ValidConfig(c) && Reachable(c, w) && Schedulable(c, w, rest)
    requires id in w.pcs && w.pcs[id] == ToApply
    requires Precedes(GraphEdges(c), a, id)
    ensures IsReady(w.nodes, a) && IsReady(After(c, w, rest).nodes, a)
  {
    ReachableInv(c, w);
    var p :| PathFromTo(GraphEdges(c), p, a, id) && |p| >= 2;
    AncestorsReady(c, w, p, a, id);
    ReadyIsPermanent(c, w, rest, a);
  }

  // ---- one Apply per node, bounded retries ----

  /** A retry spends budget but never calls `Apply` again. */
  lemma AppliedAtMostOnce(c: Config, w: World, id: string)
    requires ValidConfig(c) && Reachable(c, w) && id in c.dag.nodeMap
    ensures id in w.applyCalls && w.applyCalls[id] <= 1
    ensures id in w.nodes && w.nodes[id].retryCount <= Budget(c.maxRetries)
    ensures w.nodes[id].state == Ready || w.nodes[id].state == Error ==> w.applyCalls[id] == 1
    ensures w.nodes[id].state == Pending ==> w.applyCalls[id] == 0
  {
    ReachableInv(c, w);
    assert NodeInv(c, w, id);
  }

  /** What the recorded times say in every reachable state. */
  lemma TimestampsTell(c: Config, w: World, id: string)
    requires ValidConfig(c) && Reachable(c, w) && id in c.dag.nodeMap
    ensures id in w.nodes && Stamped(w.nodes[id])
    ensures w.endTime.Some? <==> w.main == Returned(false)
  {
    ReachableInv(c, w);
    assert NodeInv(c, w, id);
  }

  /** The only request that is ever refused is a retry asking for Applying: the step that moves a
      goroutine to `Refused` starts at `ToApplying`, in state Error, after an increment. */
  lemma OnlyRetriesAreRefused(c: Config, w: World, a: Action)
    requires ValidConfig(c) && Reachable(c, w) && Enabled(c, w, a) && a.NodeStep?
    requires Act(c, w, a).pcs[a.id] == Refused
    ensures w.pcs[a.id] == ToApplying && w.nodes[a.id].state == Error && w.applyCalls[a.id] == 1
  {
    ReachableInv(c, w);
    assert NodeInv(c, w, a.id);
    TableShape(w.nodes[a.id].state, WaitingReady);
    TableShape(w.nodes[a.id].state, Ready);
    TableShape(w.nodes[a.id].state, Applying);
  }

  // ---- concurrency ----

  function Busy(w: World): set<string> {
    set id | id in w.nodes && (w.nodes[id].state == Applying || w.nodes[id].state == WaitingReady)
  }

  lemma BusyIsRunning(c: Config, w: World, id: string)
    requires NodesInv(c, w) && id in Busy(w)
    ensures id in RunningNodes(w)
  {
    assert NodeInv(c, w, id);
  }

  lemma SubsetCard(a: set<string>, b: set<string>)
    requires a <= b
    ensures |a| <= |b|
  {
    assert b == a + (b - a);
  }

  /** At most MaxConcurrency nodes are Applying or WaitingReady, and between waves none is. */
  lemma ConcurrencyBound(c: Config, w: World)
    requires ValidConfig(c) && Reachable(c, w)
    ensures |Busy(w)| <= c.maxConcurrency
    ensures w.main != InWave ==> Busy(w) == {}
  {
    ReachableInv(c, w);
    var busy, running := Busy(w), RunningNodes(w);
    forall id | id in busy ensures id in running {
      BusyIsRunning(c, w, id);
    }
    SubsetCard(busy, running);
  }
}
