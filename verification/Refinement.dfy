/** Parallel waves refine a sequential walk. For fixed outcomes, every interleaving that returns
    without an error leaves each node in the state that a one-by-one walk in dependency order gives
    it, which depends only on the dependency relation and the outcomes. */
module Refinement {
  import opened GraphTypes
  import opened Paths
  import opened DagBuilder
  import opened NodeStates
  import opened Machine
  import opened Invariant
  import opened Safety

  // ---- the sequential specification ----

  /** The first `k` nodes, one after another: a node whose dependencies all became Ready takes its
      outcome, any other stays Pending. */
  ghost function Walk(c: Config, o: Outcomes, k: nat): map<string, NodeState>
    requires k <= |c.dag.order|
  {
    if k == 0 then map[]
    else
      var before, id := Walk(c, o, k - 1), c.dag.order[k - 1];
      before[id := if !WalkedReady(c, before, id) then Pending
                   else if Succeeds(c, o, id) then Ready else Error]
  }

  ghost predicate WalkedReady(c: Config, before: map<string, NodeState>, id: string) {
    forall d :: d in Deps(c, id) ==> d in before && before[d] == Ready
  }

  lemma {:induction false} WalkDomain(c: Config, o: Outcomes, k: nat)
    requires k <= |c.dag.order|
    ensures forall id :: id in Walk(c, o, k) <==> id in c.dag.order[..k]
  {
    if k > 0 {
      WalkDomain(c, o, k - 1);
      assert c.dag.order[..k] == c.dag.order[..k - 1] + [c.dag.order[k - 1]];
    }
  }

  // ---- outcomes seen along a run ----

  /** What the fixed outcomes say about a node's status and its goroutine's program counter. */
  predicate OutcomeLocal(polls: bool, applies: bool, becomes: bool, s: NodeStatus, pc: Pc) {
    var succeeds := applies && (polls ==> becomes);
    && (s.state == Ready ==> succeeds)
    && (s.state == Error ==> !succeeds)
    && (pc == AfterApply || pc == ToWaiting || pc == Polling || pc == NotReady ==> applies)
    && (pc == ApplyFailed ==> !applies)
    && (pc == NotReady ==> !becomes)
    && (pc == ToReady ==> succeeds)
  }

  function PcOf(w: World, id: string): Pc {
    if id in w.pcs then w.pcs[id] else Done
  }

  predicate NodeOutcome(c: Config, o: Outcomes, w: World, id: string)
    requires id in w.nodes
  {
    OutcomeLocal(NeedsReadiness(c, id), id in o.applies, id in o.becomesReady, w.nodes[id], PcOf(w, id))
  }

  ghost predicate OutcomeInv(c: Config, o: Outcomes, w: World) {
    forall id {:trigger NodeOutcome(c, o, w, id)} :: id in w.nodes ==> NodeOutcome(c, o, w, id)
  }

  lemma StepLocalKeepsOutcome(maxRetries: int, polls: bool, applies: bool, becomes: bool, l: Local,
                              ok: bool, now: int, msg: string)
    requires LocalInv(maxRetries, polls, l) && OutcomeLocal(polls, applies, becomes, l.status, l.pc)
    requires l.pc == InApply ==> ok == applies
    requires l.pc == Polling ==> ok == becomes
    ensures var l' := StepLocal(l, polls, ok, now, msg); OutcomeLocal(polls, applies, becomes, l'.status, l'.pc)
  {
    match l.pc
    case ToApplying => TableShape(l.status.state, Applying);
    case ToWaiting => TableShape(l.status.state, WaitingReady);
    case ToReady => TableShape(l.status.state, Ready);
    case _ =>
  }

  lemma MainKeepsOutcome(c: Config, o: Outcomes, w: World, now: int, id: string)
    requires ValidConfig(c) && Enabled(c, w, MainStep(now)) && (w.main != InWave ==> w.pcs == map[])
    requires id in w.nodes && NodeOutcome(c, o, w, id)
    ensures var w' := ActMain(c, w, now); w'.nodes == w.nodes && NodeOutcome(c, o, w', id)
  {
  }

  lemma NodeKeepsOutcome(c: Config, o: Outcomes, w: World, a: Action)
    requires NodesInv(c, w) && a.NodeStep? && Enabled(c, w, a) && Agrees(o, w, a)
    requires NodeOutcome(c, o, w, a.id)
    ensures NodeOutcome(c, o, ActNode(c, w, a.id, a.ok, a.now, a.msg), a.id)
  {
    assert NodeInv(c, w, a.id);
    var l := Local(w.nodes[a.id], w.pcs[a.id], w.applyCalls[a.id]);
    StepLocalKeepsOutcome(c.maxRetries, NeedsReadiness(c, a.id), a.id in o.applies, a.id in o.becomesReady,
                          l, a.ok, a.now, a.msg);
  }

  lemma ActKeepsOutcomes(c: Config, o: Outcomes, w: World, a: Action)
    requires ValidConfig(c) && Inv(c, w) && OutcomeInv(c, o, w) && Enabled(c, w, a) && Agrees(o, w, a)
    ensures OutcomeInv(c, o, Act(c, w, a))
  {
    forall id | id in Act(c, w, a).nodes ensures NodeOutcome(c, o, Act(c, w, a), id) {
      match a
      case Cancel => assert NodeOutcome(c, o, w, id);
      case MainStep(now) => MainKeepsOutcome(c, o, w, now, id);
      case NodeStep(x, ok, now, msg) =>
        if x == id {
          NodeKeepsOutcome(c, o, w, a);
        } else {
          assert NodeOutcome(c, o, w, id);
        }
    }
  }

  lemma {:induction false} RunKeepsOutcomes(c: Config, o: Outcomes, w: World, sched: seq<Action>)
    requires ValidConfig(c) && Inv(c, w) && OutcomeInv(c, o, w)
    requires Schedulable(c, w, sched) && AllAgree(c, o, w, sched)
    ensures OutcomeInv(c, o, After(c, w, sched))
    decreases |sched|
  {
    if sched != [] {
      ActKeepsInv(c, w, sched[0]);
      ActKeepsOutcomes(c, o, w, sched[0]);
      RunKeepsOutcomes(c, o, Act(c, w, sched[0]), sched[1..]);
    }
  }

  /** `w` is reached from the start by a run whose answers agree with `o`. */
  ghost predicate ReachedUnder(c: Config, o: Outcomes, w: World, sched: seq<Action>) {
    ReachedBy(c, w, sched) && AllAgree(c, o, Init(c), sched)
  }

  lemma ReachedOutcomes(c: Config, o: Outcomes, w: World, sched: seq<Action>)
    requires ValidConfig(c) && ReachedUnder(c, o, w, sched)
    ensures Inv(c, w) && OutcomeInv(c, o, w)
  {
    InitInv(c);
    RunKeepsInv(c, Init(c), sched);
    RunKeepsOutcomes(c, o, Init(c), sched);
  }

  // ---- the return state is settled ----

  /** When `Execute` returns nil, a node has left Pending exactly when its dependencies are Ready. */
  lemma ReturnSettled(c: Config, w: World, id: string)
    requires ValidConfig(c) && Inv(c, w) && w.main == Returned(false) && id in c.dag.nodeMap
    ensures w.nodes[id].state == Pending <==> !DepsReady(c, w.nodes, id)
    ensures w.nodes[id].state in {Pending, Ready, Error}
  {
    assert NodeInv(c, w, id);
    ReadyNodesAll(c, w.nodes, id);
  }

  /** Each node's state follows from its direct dependencies and its own outcome. */
  ghost predicate Settled(c: Config, o: Outcomes, m: Statuses) {
    forall id :: id in c.dag.nodeMap ==> NodeSettled(c, o, m, id)
  }

  ghost predicate NodeSettled(c: Config, o: Outcomes, m: Statuses, id: string) {
    && id in m
    && m[id].state == if !DepsReady(c, m, id) then Pending else if Succeeds(c, o, id) then Ready else Error
  }

  lemma ReachedSettled(c: Config, o: Outcomes, w: World, sched: seq<Action>)
    requires ValidConfig(c) && ReachedUnder(c, o, w, sched) && w.main == Returned(false)
    ensures Settled(c, o, w.nodes)
  {
    ReachedOutcomes(c, o, w, sched);
    forall id | id in c.dag.nodeMap ensures NodeSettled(c, o, w.nodes, id) {
      ReturnSettled(c, w, id);
      assert NodeOutcome(c, o, w, id);
    }
  }

  ghost predicate SameStates(m: Statuses, walk: map<string, NodeState>) {
    forall id :: id in walk ==> id in m && m[id].state == walk[id]
  }

  lemma {:induction false} SettledMatchesWalk(c: Config, o: Outcomes, m: Statuses, k: nat)
    requires WellFormed(c.dag) && Settled(c, o, m) && k <= |c.dag.order|
    ensures SameStates(m, Walk(c, o, k))
  {
    if k > 0 {
      SettledMatchesWalk(c, o, m, k - 1);
      SettledStep(c, o, m, k);
    }
  }

  lemma SettledStep(c: Config, o: Outcomes, m: Statuses, k: nat)
    requires WellFormed(c.dag) && Settled(c, o, m) && 0 < k <= |c.dag.order| && SameStates(m, Walk(c, o, k - 1))
    ensures SameStates(m, Walk(c, o, k))
  {
    var id := c.dag.order[k - 1];
    assert id in c.dag.order;
    WalkDepsMatch(c, o, m, k);
    assert NodeSettled(c, o, m, id);
  }

  lemma WalkDepsMatch(c: Config, o: Outcomes, m: Statuses, k: nat)
    requires WellFormed(c.dag) && 0 < k <= |c.dag.order| && SameStates(m, Walk(c, o, k - 1))
    ensures WalkedReady(c, Walk(c, o, k - 1), c.dag.order[k - 1]) <==> DepsReady(c, m, c.dag.order[k - 1])
  {
    var id, before := c.dag.order[k - 1], Walk(c, o, k - 1);
    WalkDomain(c, o, k - 1);
    forall d | d in Deps(c, id) ensures d in before && (before[d] == Ready <==> IsReady(m, d)) {
      OrderAt(c, k, d);
    }
  }

  /** Main theorem: whatever the interleaving, a run that returns nil ends in the walk's states. */
  lemma WavesRefineWalk(c: Config, o: Outcomes, w: World, sched: seq<Action>, id: string)
    requires ValidConfig(c) && ReachedUnder(c, o, w, sched) && w.main == Returned(false)
    requires id in c.dag.nodeMap
    ensures var walk := Walk(c, o, |c.dag.order|);
            id in walk && id in w.nodes && w.nodes[id].state == walk[id]
  {
    ReachedSettled(c, o, w, sched);
    SettledMatchesWalk(c, o, w.nodes, |c.dag.order|);
    WalkDomain(c, o, |c.dag.order|);
    assert c.dag.order[..|c.dag.order|] == c.dag.order;
  }

  // ---- the same, without mentioning an order ----

  /** Every node from which `id` can be reached over at least one dependency succeeds. */
  ghost predicate AncestorsSucceed(c: Config, o: Outcomes, id: string) {
    forall a :: Precedes(GraphEdges(c), a, id) ==> Succeeds(c, o, a)
  }

  lemma AncestorStep(c: Config, o: Outcomes, id: string)
    ensures AncestorsSucceed(c, o, id) <==>
              forall d :: d in Deps(c, id) ==> Succeeds(c, o, d) && AncestorsSucceed(c, o, d)
  {
    forall d | d in Deps(c, id)
      ensures Precedes(GraphEdges(c), d, id)
      ensures forall a :: Precedes(GraphEdges(c), a, d) ==> Precedes(GraphEdges(c), a, id)
    {
      DepEdge(c.dag.nodeMap, d, id);
      ReachesSelf(GraphEdges(c), d);
      ReachesThenEdge(GraphEdges(c), d, d, id);
      forall a | Precedes(GraphEdges(c), a, d) ensures Precedes(GraphEdges(c), a, id) {
        assert Reaches(GraphEdges(c), a, d);
        ReachesThenEdge(GraphEdges(c), a, d, id);
      }
    }
    forall a | Precedes(GraphEdges(c), a, id)
      ensures exists d :: d in Deps(c, id) && (a == d || Precedes(GraphEdges(c), a, d))
    {
      var d := LastEdge(GraphEdges(c), a, id);
      DepEdge(c.dag.nodeMap, d, id);
      var p :| PathFromTo(GraphEdges(c), p, a, d);
      assert |p| == 1 ==> a == d;
    }
  }

  /** The state a node ends in, told by its ancestors and its own outcome. */
  ghost function Expected(c: Config, o: Outcomes, id: string): NodeState {
    if !AncestorsSucceed(c, o, id) then Pending else if Succeeds(c, o, id) then Ready else Error
  }

  /** The walk has given `d` that state. */
  ghost predicate WalkedAs(c: Config, o: Outcomes, walk: map<string, NodeState>, d: string) {
    d in walk && walk[d] == Expected(c, o, d)
  }

  lemma WalkedReadyMeaning(c: Config, o: Outcomes, walk: map<string, NodeState>, id: string)
    requires forall d :: d in Deps(c, id) ==> WalkedAs(c, o, walk, d)
    ensures WalkedReady(c, walk, id) <==> AncestorsSucceed(c, o, id)
  {
    AncestorStep(c, o, id);
    assert forall d :: d in Deps(c, id) ==> WalkedAs(c, o, walk, d);
  }

  /** The order around position `k - 1`: its node is new, and its dependencies come before. */
  lemma OrderAt(c: Config, k: nat, d: string)
    requires WellFormed(c.dag) && 0 < k <= |c.dag.order|
    ensures c.dag.order[..k] == c.dag.order[..k - 1] + [c.dag.order[k - 1]]
    ensures c.dag.order[k - 1] !in c.dag.order[..k - 1]
    ensures d in Deps(c, c.dag.order[k - 1]) ==> d in c.dag.order[..k - 1]
  {
    assert d in Deps(c, c.dag.order[k - 1]) ==> DependsOn(c.dag.nodeMap, c.dag.order[k - 1], d);
  }

  /** The last step of a walk. */
  lemma WalkStep(c: Config, o: Outcomes, k: nat, before: map<string, NodeState>, id: string)
    requires 0 < k <= |c.dag.order| && before == Walk(c, o, k - 1) && id == c.dag.order[k - 1]
    requires forall d :: d in Deps(c, id) ==> WalkedAs(c, o, before, d)
    ensures WalkedAs(c, o, Walk(c, o, k), id)
  {
    WalkedReadyMeaning(c, o, before, id);
  }

  /** The last step leaves the nodes before it alone. */
  lemma WalkKeeps(c: Config, o: Outcomes, k: nat, id: string)
    requires 0 < k <= |c.dag.order| && WalkedAs(c, o, Walk(c, o, k - 1), id) && id != c.dag.order[k - 1]
    ensures WalkedAs(c, o, Walk(c, o, k), id)
  {
  }

  /** By position in the order. */
  lemma {:induction false} WalkMeaningAt(c: Config, o: Outcomes, k: nat, j: nat)
    requires WellFormed(c.dag) && j < k <= |c.dag.order|
    ensures WalkedAs(c, o, Walk(c, o, k), c.dag.order[j])
    decreases k
  {
    var id := c.dag.order[j];
    if j < k - 1 {
      WalkMeaningAt(c, o, k - 1, j);
      WalkKeeps(c, o, k, id);
    } else {
      var before := Walk(c, o, k - 1);
      forall d | d in Deps(c, id) ensures WalkedAs(c, o, before, d) {
        OrderAt(c, k, d);
        var i :| 0 <= i < k - 1 && c.dag.order[..k - 1][i] == d;
        WalkMeaningAt(c, o, k - 1, i);
      }
      WalkStep(c, o, k, before, id);
    }
  }

  lemma WalkMeaning(c: Config, o: Outcomes, k: nat, id: string)
    requires WellFormed(c.dag) && k <= |c.dag.order| && id in c.dag.order[..k]
    ensures id in Walk(c, o, k)
    ensures Walk(c, o, k)[id] ==
              if !AncestorsSucceed(c, o, id) then Pending else if Succeeds(c, o, id) then Ready else Error
  {
    var j :| 0 <= j < k && c.dag.order[..k][j] == id;
    WalkMeaningAt(c, o, k, j);
  }

  /** After a nil return a node is Ready iff it and all its ancestors succeed, Error iff it fails and
      all its ancestors succeed, and Pending iff some ancestor fails. */
  lemma ReturnStates(c: Config, o: Outcomes, w: World, sched: seq<Action>, id: string)
    requires ValidConfig(c) && ReachedUnder(c, o, w, sched) && w.main == Returned(false)
    requires id in c.dag.nodeMap
    ensures id in w.nodes
    ensures w.nodes[id].state == Ready <==> Succeeds(c, o, id) && AncestorsSucceed(c, o, id)
    ensures w.nodes[id].state == Error <==> !Succeeds(c, o, id) && AncestorsSucceed(c, o, id)
    ensures w.nodes[id].state == Pending <==> !AncestorsSucceed(c, o, id)
  {
    WavesRefineWalk(c, o, w, sched, id);
    assert c.dag.order[..|c.dag.order|] == c.dag.order;
    WalkMeaning(c, o, |c.dag.order|, id);
  }

  lemma LeftPendingMeaning(c: Config, o: Outcomes, w: World, id: string)
    requires Inv(c, w) && OutcomeInv(c, o, w) && id in w.nodes && w.nodes[id].state != Pending
    ensures AncestorsSucceed(c, o, id)
  {
    forall a | Precedes(GraphEdges(c), a, id) ensures Succeeds(c, o, a) {
      var p :| PathFromTo(GraphEdges(c), p, a, id) && |p| >= 2;
      AncestorsReady(c, w, p, a, id);
      assert NodeOutcome(c, o, w, a);
    }
  }

  /** At every moment of every run, cancelled or not: a node that has left Pending has only succeeding
      ancestors, and Ready and Error tell its own outcome. So a run that returns, even with an error,
      leaves every node Pending or in the state of the sequential walk. */
  lemma AnyTimeStates(c: Config, o: Outcomes, w: World, sched: seq<Action>, id: string)
    requires ValidConfig(c) && ReachedUnder(c, o, w, sched) && id in c.dag.nodeMap
    ensures id in w.nodes && id in Walk(c, o, |c.dag.order|)
    ensures w.nodes[id].state != Pending ==> AncestorsSucceed(c, o, id)
    ensures w.nodes[id].state == Ready ==> Succeeds(c, o, id)
    ensures w.nodes[id].state == Error ==> !Succeeds(c, o, id)
    ensures w.main.Returned? ==> w.nodes[id].state in {Pending, Walk(c, o, |c.dag.order|)[id]}
  {
    ReachedOutcomes(c, o, w, sched);
    assert NodeOutcome(c, o, w, id) && NodeInv(c, w, id);
    assert c.dag.order[..|c.dag.order|] == c.dag.order;
    WalkMeaning(c, o, |c.dag.order|, id);
    if w.nodes[id].state != Pending {
      LeftPendingMeaning(c, o, w, id);
    }
  }

  /** Two runs of the same graph with the same outcomes end alike, even under different topological
      orders, concurrency limits and retry budgets. */
  lemma Confluence(c1: Config, c2: Config, o: Outcomes, w1: World, w2: World,
                   s1: seq<Action>, s2: seq<Action>, id: string)
    requires ValidConfig(c1) && ReachedUnder(c1, o, w1, s1) && w1.main == Returned(false)
    requires ValidConfig(c2) && ReachedUnder(c2, o, w2, s2) && w2.main == Returned(false)
    requires c1.dag.nodeMap == c2.dag.nodeMap && id in c1.dag.nodeMap
    ensures id in w1.nodes && id in w2.nodes && w1.nodes[id].state == w2.nodes[id].state
  {
    ReturnStates(c1, o, w1, s1, id);
    ReturnStates(c2, o, w2, s2, id);
    assert AncestorsSucceed(c1, o, id) <==> AncestorsSucceed(c2, o, id);
  }

  // ---- the same, over the fields of the nodes ----

  /** The node `b` lists `a` as a dependency. */
  ghost predicate NeedsDirectly(nodes: map<string, Node>, b: string, a: string) {
    b in nodes && a in nodes[b].dependsOn
  }

  /** `p` leads from `a` to `id`, each node on it listed as a dependency of the next. */
  ghost predicate Chain(nodes: map<string, Node>, p: seq<string>, a: string, id: string) {
    && |p| >= 2 && p[0] == a && p[|p| - 1] == id
    && forall k :: 0 <= k < |p| - 1 ==> NeedsDirectly(nodes, p[k + 1], p[k])
  }

  /** `id` depends on `a`, directly or through others. */
  ghost predicate DependsDeeply(nodes: map<string, Node>, id: string, a: string) {
    exists p :: Chain(nodes, p, a, id)
  }

  /** `Apply` accepts the node and, if it has readiness predicates, it becomes ready in time. */
  ghost predicate Works(nodes: map<string, Node>, o: Outcomes, id: string) {
    id in nodes && id in o.applies && (nodes[id].readyWhen == [] || id in o.becomesReady)
  }

  ghost predicate AllBelowWork(nodes: map<string, Node>, o: Outcomes, id: string) {
    forall a :: DependsDeeply(nodes, id, a) ==> Works(nodes, o, a)
  }

  lemma DeepMeaning(c: Config, id: string, a: string)
    ensures DependsDeeply(c.dag.nodeMap, id, a) <==> Precedes(GraphEdges(c), a, id)
  {
    var nodes := c.dag.nodeMap;
    forall x, y ensures (x, y) in GraphEdges(c) <==> NeedsDirectly(nodes, y, x) {
      DepEdge(nodes, x, y);
    }
    if DependsDeeply(nodes, id, a) {
      var p :| Chain(nodes, p, a, id);
      assert PathFromTo(GraphEdges(c), p, a, id);
    }
    if Precedes(GraphEdges(c), a, id) {
      var p :| PathFromTo(GraphEdges(c), p, a, id) && |p| >= 2;
      assert Chain(nodes, p, a, id);
    }
  }

  lemma WorksMeaning(c: Config, o: Outcomes, id: string)
    requires id in c.dag.nodeMap
    ensures Works(c.dag.nodeMap, o, id) <==> Succeeds(c, o, id)
  {
  }

  lemma AncestorIsNode(c: Config, id: string, a: string)
    requires WellFormed(c.dag) && Precedes(GraphEdges(c), a, id)
    ensures a in c.dag.nodeMap
  {
    var p :| PathFromTo(GraphEdges(c), p, a, id) && |p| >= 2;
    assert (p[0], p[1]) in GraphEdges(c);
    DepEdge(c.dag.nodeMap, p[0], p[1]);
    var i :| 0 <= i < |c.dag.order| && c.dag.order[i] == p[1];
    assert DependsOn(c.dag.nodeMap, c.dag.order[i], a);
  }

  lemma BelowMeaning(c: Config, o: Outcomes, id: string)
    requires WellFormed(c.dag)
    ensures AllBelowWork(c.dag.nodeMap, o, id) <==> AncestorsSucceed(c, o, id)
  {
    forall a
      ensures DependsDeeply(c.dag.nodeMap, id, a) <==> Precedes(GraphEdges(c), a, id)
      ensures DependsDeeply(c.dag.nodeMap, id, a) ==> (Works(c.dag.nodeMap, o, a) <==> Succeeds(c, o, a))
    {
      DeepMeaning(c, id, a);
      if DependsDeeply(c.dag.nodeMap, id, a) {
        AncestorIsNode(c, id, a);
        WorksMeaning(c, o, a);
      }
    }
  }

  /** After a nil return a node is Ready iff `Apply` accepted it, it became ready if it had to, and the
      same holds of everything it depends on; Error iff that holds of everything it depends on but not
      of itself; and Pending otherwise. */
  lemma ReturnMeaning(c: Config, o: Outcomes, w: World, sched: seq<Action>, id: string)
    requires ValidConfig(c) && ReachedUnder(c, o, w, sched) && w.main == Returned(false)
    requires id in c.dag.nodeMap
    ensures id in w.nodes
    ensures w.nodes[id].state == Ready <==> Works(c.dag.nodeMap, o, id) && AllBelowWork(c.dag.nodeMap, o, id)
    ensures w.nodes[id].state == Error <==> !Works(c.dag.nodeMap, o, id) && AllBelowWork(c.dag.nodeMap, o, id)
    ensures w.nodes[id].state == Pending <==> !AllBelowWork(c.dag.nodeMap, o, id)
  {
    ReturnStates(c, o, w, sched, id);
    WorksMeaning(c, o, id);
    BelowMeaning(c, o, id);
  }

  /** At every moment of every run, cancelled or not: when a node has left Pending, everything it depends
      on works, and Ready and Error tell whether it works itself. A run that returns, even with an error,
      leaves every node Pending or in the state of the sequential walk. */
  lemma AnyTimeMeaning(c: Config, o: Outcomes, w: World, sched: seq<Action>, id: string)
    requires ValidConfig(c) && ReachedUnder(c, o, w, sched) && id in c.dag.nodeMap
    ensures id in w.nodes && id in Walk(c, o, |c.dag.order|)
    ensures w.nodes[id].state != Pending ==> AllBelowWork(c.dag.nodeMap, o, id)
    ensures w.nodes[id].state == Ready ==> Works(c.dag.nodeMap, o, id)
    ensures w.nodes[id].state == Error ==> !Works(c.dag.nodeMap, o, id)
    ensures w.main.Returned? ==> w.nodes[id].state in {Pending, Walk(c, o, |c.dag.order|)[id]}
  {
    AnyTimeStates(c, o, w, sched, id);
    WorksMeaning(c, o, id);
    BelowMeaning(c, o, id);
  }

  // ---- the shape of a stuck graph ----

  ghost predicate BelowError(c: Config, w: World, id: string) {
    exists e :: Precedes(GraphEdges(c), e, id) && e in w.nodes && w.nodes[e].state == Error
  }

  lemma {:induction false} PendingIsBelowError(c: Config, w: World, i: nat)
    requires ValidConfig(c) && Inv(c, w) && w.main == Returned(false)
    requires i < |c.dag.order| && c.dag.order[i] in w.nodes && w.nodes[c.dag.order[i]].state == Pending
    ensures BelowError(c, w, c.dag.order[i])
  {
    var id := c.dag.order[i];
    assert id in c.dag.order;
    ReturnSettled(c, w, id);
    var d :| d in Deps(c, id) && !IsReady(w.nodes, d);
    assert DependsOn(c.dag.nodeMap, id, d);
    var j :| 0 <= j < |c.dag.order[..i]| && c.dag.order[..i][j] == d;
    assert d in c.dag.order;
    DepEdge(c.dag.nodeMap, d, id);
    ReturnSettled(c, w, d);
    if w.nodes[d].state == Error {
      ReachesSelf(GraphEdges(c), d);
      ReachesThenEdge(GraphEdges(c), d, d, id);
    } else {
      PendingIsBelowError(c, w, j);
      var e :| Precedes(GraphEdges(c), e, d) && e in w.nodes && w.nodes[e].state == Error;
      assert Reaches(GraphEdges(c), e, d);
      ReachesThenEdge(GraphEdges(c), e, d, id);
    }
  }

  /** After a nil return the Pending nodes are exactly the strict descendants of Error nodes, and if
      there is one then every Error node has used its whole retry budget. */
  lemma StuckShape(c: Config, w: World, id: string)
    requires ValidConfig(c) && Reachable(c, w) && w.main == Returned(false) && id in c.dag.nodeMap
    ensures id in w.nodes
    ensures w.nodes[id].state == Pending <==> BelowError(c, w, id)
    ensures w.nodes[id].state == Error && !Complete(w.nodes) ==> w.nodes[id].retryCount == Budget(c.maxRetries)
  {
    ReachableInv(c, w);
    assert NodeInv(c, w, id);
    if w.nodes[id].state == Pending {
      var i :| 0 <= i < |c.dag.order| && c.dag.order[i] == id;
      PendingIsBelowError(c, w, i);
    } else if BelowError(c, w, id) {
      var e :| Precedes(GraphEdges(c), e, id) && e in w.nodes && w.nodes[e].state == Error;
      var p :| PathFromTo(GraphEdges(c), p, e, id) && |p| >= 2;
      AncestorsReady(c, w, p, e, id);
      assert false;
    }
    ReadyNodesAll(c, w.nodes, id);
  }
}
