/** Termination of `Execute` under every scheduler, with explicit bounds, and absence of deadlock. */
module Termination {
  import opened NodeStates
  import opened Machine
  import opened Invariant
  import opened Safety

  // ---- sums over the order ----

  function Sum(order: seq<string>, f: map<string, nat>): nat {
    if order == [] then 0
    else Sum(order[1..], f) + (if order[0] in f then f[order[0]] else 0)
  }

  function At(f: map<string, nat>, id: string): nat {
    if id in f then f[id] else 0
  }

  lemma {:induction false} SumMonotone(order: seq<string>, f: map<string, nat>, g: map<string, nat>)
    requires forall id :: At(f, id) <= At(g, id)
    ensures Sum(order, f) <= Sum(order, g)
  {
    if order != [] {
      SumMonotone(order[1..], f, g);
      assert At(f, order[0]) <= At(g, order[0]);
    }
  }

  lemma {:induction false} SumStrict(order: seq<string>, f: map<string, nat>, g: map<string, nat>, id: string)
    requires forall x :: At(f, x) <= At(g, x)
    requires id in order && At(f, id) < At(g, id)
    ensures Sum(order, f) < Sum(order, g)
  {
    assert At(f, order[0]) <= At(g, order[0]);
    if order[0] == id {
      SumMonotone(order[1..], f, g);
    } else {
      SumStrict(order[1..], f, g, id);
    }
  }

  lemma {:induction false} SumCapped(order: seq<string>, f: map<string, nat>, cap: nat)
    requires forall id :: At(f, id) <= cap
    ensures Sum(order, f) <= |order| * cap
  {
    if order != [] {
      SumCapped(order[1..], f, cap);
      assert At(f, order[0]) <= cap;
      assert |order| * cap == |order[1..]| * cap + cap;
    }
  }

  // ---- waves ----

  /** Progress of one node: leaving Pending counts once, each retry counts once more. */
  function Credit(s: NodeStatus): nat {
    if s.state == Pending then 0 else 1 + s.retryCount
  }

  function Credits(m: Statuses): map<string, nat> {
    map id | id in m :: Credit(m[id])
  }

  function Progress(c: Config, m: Statuses): nat {
    Sum(c.dag.order, Credits(m))
  }

  /** N * (1 + MaxRetries). */
  function MaxWaves(c: Config): nat {
    |c.dag.order| * (1 + Budget(c.maxRetries))
  }

  /** A goroutine has earned its credit once it is past its first status change; only cancellation
      lets it end without. `b` is the node's credit when the wave began. */
  predicate EarnedLocal(b: nat, s: NodeStatus, pc: Pc, cancelled: bool) {
    match pc
    case Queued => Credit(s) == b
    case Starting => Credit(s) == b
    case Backoff => Credit(s) == b
    case Retrying => Credit(s) == b
    case ToApplying => Credit(s) >= (if s.state == Pending then b else b + 1)
    case Done => Credit(s) >= (if cancelled then b else b + 1)
    case _ => Credit(s) >= b + 1
  }

  predicate Earned(w: World, id: string)
    requires id in w.nodes && id in w.before
  {
    if id in w.pcs then EarnedLocal(Credit(w.before[id]), w.nodes[id], w.pcs[id], w.cancelled)
    else w.nodes[id] == w.before[id]
  }

  ghost predicate InWaveInv(c: Config, w: World) {
    && w.before.Keys == w.nodes.Keys
    && w.pcs != map[]
    && w.waves <= Progress(c, w.before) + 1 <= MaxWaves(c)
    && forall id {:trigger Earned(w, id)} :: id in w.nodes ==> Earned(w, id)
  }

  ghost predicate WaveInv(c: Config, w: World) {
    && w.waves <= MaxWaves(c)
    && (w.main == InWave ==> InWaveInv(c, w))
    && (w.main == FindReady ==> w.waves <= Progress(c, w.nodes))
    && ((w.main == LoopHead || w.main == CheckContext) && !w.cancelled ==> w.waves <= Progress(c, w.nodes))
  }

  lemma StepLocalEarns(b: nat, maxRetries: int, polls: bool, cancelled: bool, l: Local, ok: bool, now: int, msg: string)
    requires LocalInv(maxRetries, polls, l) && EarnedLocal(b, l.status, l.pc, cancelled)
    requires l.pc == Backoff ==> ok || cancelled
    ensures var l' := StepLocal(l, polls, ok, now, msg); EarnedLocal(b, l'.status, l'.pc, cancelled)
  {
    match l.pc
    case ToApplying => TableShape(l.status.state, Applying);
    case ToWaiting => TableShape(l.status.state, WaitingReady);
    case ToReady => TableShape(l.status.state, Ready);
    case _ =>
  }

  lemma CreditCapped(c: Config, w: World, id: string)
    requires NodesInv(c, w) && id in w.nodes
    ensures Credit(w.nodes[id]) <= 1 + Budget(c.maxRetries)
    ensures Selected(c, w.nodes, id) ==> Credit(w.nodes[id]) < 1 + Budget(c.maxRetries)
  {
    assert NodeInv(c, w, id);
  }

  /** While some node is still selected, the total progress is below its maximum. */
  lemma RoomForAWave(c: Config, w: World, id: string)
    requires ValidConfig(c) && NodesInv(c, w) && id in w.nodes && Selected(c, w.nodes, id)
    ensures Progress(c, w.nodes) + 1 <= MaxWaves(c)
  {
    var f := Credits(w.nodes);
    forall x ensures At(f, x) <= 1 + Budget(c.maxRetries) {
      if x in w.nodes {
        CreditCapped(c, w, x);
      }
    }
    CreditCapped(c, w, id);
    var g := f[id := f[id] + 1];
    forall x ensures At(f, x) <= At(g, x) <= 1 + Budget(c.maxRetries) {
      assert x == id ==> At(g, x) == At(f, x) + 1;
      assert x != id ==> At(g, x) == At(f, x);
    }
    assert id in c.dag.order;
    SumStrict(c.dag.order, f, g, id);
    SumCapped(c.dag.order, g, 1 + Budget(c.maxRetries));
  }

  /** A wave that ends uncancelled has raised the total progress. */
  lemma WaveMakesProgress(c: Config, w: World)
    requires ValidConfig(c) && NodesInv(c, w) && InWaveInv(c, w) && !w.cancelled
    requires forall id :: id in w.pcs ==> w.pcs[id] == Done
    ensures Progress(c, w.before) + 1 <= Progress(c, w.nodes)
  {
    var f, g := Credits(w.before), Credits(w.nodes);
    forall x ensures At(f, x) <= At(g, x) {
      if x in w.nodes {
        assert Earned(w, x);
      }
    }
    var id :| id in w.pcs;
    assert Earned(w, id);
    assert id in c.dag.order;
    SumStrict(c.dag.order, f, g, id);
  }

  lemma StartKeepsWaveInv(c: Config, w: World, now: int)
    requires ValidConfig(c) && NodesInv(c, w) && w.main == FindReady && w.pcs == map[]
    requires w.waves <= Progress(c, w.nodes)
    requires w.waves <= MaxWaves(c)
    ensures WaveInv(c, ActMain(c, w, now))
  {
    var ready, w' := ReadyNodes(c, w.nodes, |c.dag.order|), ActMain(c, w, now);
    if ready != [] {
      ReadyNodesAll(c, w.nodes, ready[0]);
      RoomForAWave(c, w, ready[0]);
      assert ready[0] in w'.pcs;
      forall id | id in w'.nodes ensures Earned(w', id) {
        WaveStart(c, w, now, id);
      }
    }
  }

  lemma MainKeepsWaveInv(c: Config, w: World, now: int)
    requires ValidConfig(c) && Inv(c, w) && WaveInv(c, w) && Enabled(c, w, MainStep(now))
    ensures WaveInv(c, ActMain(c, w, now))
  {
    if w.main == FindReady {
      StartKeepsWaveInv(c, w, now);
    } else if w.main == InWave && !w.cancelled {
      WaveMakesProgress(c, w);
    }
  }

  lemma NodeKeepsEarned(c: Config, w: World, a: Action, id: string)
    requires NodesInv(c, w) && Enabled(c, w, a) && a.NodeStep?
    requires w.before.Keys == w.nodes.Keys && id in w.nodes && Earned(w, id) && Earned(w, a.id)
    ensures var w' := ActNode(c, w, a.id, a.ok, a.now, a.msg);
            w'.nodes.Keys == w.nodes.Keys && w'.before == w.before && Earned(w', id)
  {
    assert NodeInv(c, w, a.id);
    var l := Local(w.nodes[a.id], w.pcs[a.id], w.applyCalls[a.id]);
    StepLocalEarns(Credit(w.before[a.id]), c.maxRetries, NeedsReadiness(c, a.id), w.cancelled, l, a.ok, a.now, a.msg);
  }

  lemma NodeKeepsWaveInv(c: Config, w: World, a: Action)
    requires ValidConfig(c) && NodesInv(c, w) && WaveInv(c, w) && Enabled(c, w, a) && a.NodeStep?
    ensures WaveInv(c, Act(c, w, a))
  {
    forall id | id in w.nodes ensures Earned(Act(c, w, a), id) {
      NodeKeepsEarned(c, w, a, id);
    }
    assert a.id in Act(c, w, a).pcs;
  }

  lemma ActKeepsWaveInv(c: Config, w: World, a: Action)
    requires ValidConfig(c) && Inv(c, w) && WaveInv(c, w) && Enabled(c, w, a)
    ensures WaveInv(c, Act(c, w, a))
  {
    match a
    case Cancel =>
      if w.main == InWave {
        forall id | id in w.nodes ensures Earned(Act(c, w, a), id) {
          assert Earned(w, id);
        }
      }
    case MainStep(now) => MainKeepsWaveInv(c, w, now);
    case NodeStep(_, _, _, _) => NodeKeepsWaveInv(c, w, a);
  }

  // ---- a measure that every step lowers ----

  function PcRank(pc: Pc): nat {
    match pc
    case Queued => 12
    case Starting => 11
    case Backoff => 10
    case Retrying => 9
    case ToApplying => 8
    case ToApply => 7
    case InApply => 6
    case AfterApply => 5
    case ToWaiting => 4
    case Polling => 3
    case ToReady => 2
    case ApplyFailed => 1
    case NotReady => 1
    case Refused => 1
    case Done => 0
  }

  function PcRanks(pcs: map<string, Pc>): map<string, nat> {
    map id | id in pcs :: PcRank(pcs[id])
  }

  /** How far the wave loop is from its end. */
  function Position(m: MainPc): nat {
    match m
    case Returned(_) => 0
    case Finishing => 1
    case FindReady => 2
    case CheckContext => 3
    case LoopHead => 4
    case InWave => 5
  }

  function MainRank(c: Config, w: World): nat {
    Position(w.main) + (if w.main == InWave then Sum(c.dag.order, PcRanks(w.pcs)) else 0)
  }

  /** More steps than one wave can take. */
  function WaveSteps(c: Config): nat {
    12 * |c.dag.order| + 6
  }

  /** `n` blocks of size `k` and a rest. */
  function Blocks(n: nat, k: nat, r: nat): nat {
    n * k + r
  }

  function Rank(c: Config, w: World): nat
    requires w.waves <= MaxWaves(c)
  {
    Blocks(MaxWaves(c) - w.waves, WaveSteps(c), MainRank(c, w)) + (if w.cancelled then 0 else 1)
  }

  lemma StepLocalLowersPc(l: Local, polls: bool, ok: bool, now: int, msg: string)
    requires l.pc != Done
    ensures PcRank(StepLocal(l, polls, ok, now, msg).pc) < PcRank(l.pc)
  {
  }

  lemma NodeStepLowersRank(c: Config, w: World, a: Action)
    requires Enabled(c, w, a) && a.NodeStep? && a.id in c.dag.order
    ensures MainRank(c, Act(c, w, a)) < MainRank(c, w)
  {
    var l := Local(w.nodes[a.id], w.pcs[a.id], w.applyCalls[a.id]);
    StepLocalLowersPc(l, NeedsReadiness(c, a.id), a.ok, a.now, a.msg);
    var f, g := PcRanks(Act(c, w, a).pcs), PcRanks(w.pcs);
    assert f == g[a.id := f[a.id]];
    SumStrict(c.dag.order, f, g, a.id);
  }

  lemma WaveRankCapped(c: Config, w: World)
    ensures MainRank(c, w) < WaveSteps(c)
  {
    if w.main == InWave {
      assert forall id :: At(PcRanks(w.pcs), id) <= 12;
      SumCapped(c.dag.order, PcRanks(w.pcs), 12);
    }
  }

  /** A step of the loop other than starting a wave. */
  lemma LoopMoves(c: Config, w: World, now: int)
    requires Enabled(c, w, MainStep(now)) && w.main != FindReady
    ensures var w' := ActMain(c, w, now);
            w'.waves == w.waves && w'.main != InWave && Position(w'.main) < Position(w.main)
  {
    match w.main
    case LoopHead =>
    case CheckContext =>
    case InWave =>
    case Finishing =>
  }

  /** Either the loop moves on, or it opens another wave. */
  lemma MainStepShape(c: Config, w: World, now: int)
    requires Enabled(c, w, MainStep(now))
    ensures var w' := ActMain(c, w, now);
            (w'.waves == w.waves && MainRank(c, w') < MainRank(c, w)) || w'.waves == w.waves + 1
  {
    if w.main != FindReady {
      LoopMoves(c, w, now);
    }
  }

  lemma MainStepLowersRank(c: Config, w: World, now: int)
    requires Enabled(c, w, MainStep(now)) && ActMain(c, w, now).waves <= MaxWaves(c)
    ensures w.waves <= MaxWaves(c) && Rank(c, ActMain(c, w, now)) < Rank(c, w)
  {
    var w' := ActMain(c, w, now);
    MainStepShape(c, w, now);
    WaveRankCapped(c, w');
    RankDrops(MaxWaves(c) - w.waves, MaxWaves(c) - w'.waves, WaveSteps(c), MainRank(c, w), MainRank(c, w'));
  }

  lemma NodeStepLowersWholeRank(c: Config, w: World, a: Action)
    requires Enabled(c, w, a) && a.NodeStep? && a.id in c.dag.order && w.waves <= MaxWaves(c)
    ensures Act(c, w, a).waves == w.waves && Rank(c, Act(c, w, a)) < Rank(c, w)
  {
    NodeStepLowersRank(c, w, a);
    RankDrops(MaxWaves(c) - w.waves, MaxWaves(c) - w.waves, WaveSteps(c), MainRank(c, w), MainRank(c, Act(c, w, a)));
  }

  lemma CancelLowersRank(c: Config, w: World)
    requires Enabled(c, w, Cancel) && w.waves <= MaxWaves(c)
    ensures Rank(c, Act(c, w, Cancel)) < Rank(c, w)
  {
  }

  lemma InvKeys(c: Config, w: World, a: Action)
    requires ValidConfig(c) && NodesInv(c, w) && Enabled(c, w, a) && a.NodeStep?
    ensures a.id in c.dag.order
  {
  }

  /** Every step of every run lowers the rank. */
  lemma ActLowersRank(c: Config, w: World, a: Action)
    requires ValidConfig(c) && Inv(c, w) && WaveInv(c, w) && Enabled(c, w, a)
    ensures WaveInv(c, Act(c, w, a)) && Rank(c, Act(c, w, a)) < Rank(c, w)
  {
    ActKeepsWaveInv(c, w, a);
    if a.Cancel? {
      CancelLowersRank(c, w);
    } else if a.NodeStep? {
      InvKeys(c, w, a);
      NodeStepLowersWholeRank(c, w, a);
    } else {
      MainStepLowersRank(c, w, a.now);
    }
  }

  lemma RankDrops(n: nat, n': nat, k: nat, r: nat, r': nat)
    requires (n' == n && r' < r) || (n' == n - 1 && r' < k)
    ensures Blocks(n', k, r') < Blocks(n, k, r)
  {
  }

  lemma InitWaveInv(c: Config)
    ensures WaveInv(c, Init(c))
  {
  }

  lemma {:induction false} RunLength(c: Config, w: World, sched: seq<Action>)
    requires ValidConfig(c) && Inv(c, w) && WaveInv(c, w) && Schedulable(c, w, sched)
    ensures WaveInv(c, After(c, w, sched)) && |sched| + Rank(c, After(c, w, sched)) <= Rank(c, w)
    decreases |sched|
  {
    if sched != [] {
      ActKeepsInv(c, w, sched[0]);
      ActLowersRank(c, w, sched[0]);
      RunLength(c, Act(c, w, sched[0]), sched[1..]);
    }
  }

  /** Every run, under every scheduler, has at most N*(1+MaxRetries) waves and a bounded number of
      steps. No fairness is assumed. */
  lemma EveryRunIsBounded(c: Config, w: World, sched: seq<Action>)
    requires ValidConfig(c) && ReachedBy(c, w, sched)
    ensures w.waves <= MaxWaves(c)
    ensures |sched| <= MaxWaves(c) * WaveSteps(c) + 5
  {
    InitInv(c);
    InitWaveInv(c);
    RunLength(c, Init(c), sched);
  }

  // ---- no deadlock ----

  /** A started goroutine can always go on; when none is running, a queued one can start. */
  lemma WaveStep(c: Config, o: Outcomes, w: World, id: string) returns (a: Action)
    requires c.maxConcurrency >= 1 && w.main == InWave && id in w.pcs && id in w.nodes && id in w.applyCalls
    requires w.pcs[id] != Done && (w.pcs[id] == Queued ==> RunningNodes(w) == {})
    ensures Enabled(c, w, a) && a.NodeStep? && Agrees(o, w, a)
  {
    var ok := match w.pcs[id] case InApply => id in o.applies case Polling => id in o.becomesReady case _ => true;
    a := NodeStep(id, ok, 0, "");
  }

  /** Until `Execute` returns there is always a next step, other than cancelling, that agrees with
      the outcomes. With the bound above: every maximal run ends in a return. */
  lemma NextStep(c: Config, o: Outcomes, w: World) returns (a: Action)
    requires ValidConfig(c) && Inv(c, w) && !w.main.Returned?
    ensures Enabled(c, w, a) && !a.Cancel? && Agrees(o, w, a)
  {
    if w.main == InWave && exists id :: id in w.pcs && w.pcs[id] != Done {
      var id :| id in w.pcs && w.pcs[id] != Done;
      if RunningNodes(w) != {} {
        id :| id in RunningNodes(w);
      } else if w.pcs[id] != Queued {
        assert id in RunningNodes(w);
      }
      a := WaveStep(c, o, w, id);
    } else {
      a := MainStep(0);
    }
  }

  /** Whatever happened so far, the run can be finished without cancelling. */
  lemma {:induction false} CanFinish(c: Config, o: Outcomes, w: World) returns (sched: seq<Action>)
    requires ValidConfig(c) && Inv(c, w) && WaveInv(c, w)
    ensures Schedulable(c, w, sched) && AllAgree(c, o, w, sched)
    ensures After(c, w, sched).main.Returned? && After(c, w, sched).cancelled == w.cancelled
    decreases Rank(c, w)
  {
    if w.main.Returned? {
      sched := [];
    } else {
      var a := NextStep(c, o, w);
      ActKeepsInv(c, w, a);
      ActLowersRank(c, w, a);
      var rest := CanFinish(c, o, Act(c, w, a));
      sched := [a] + rest;
      assert sched[1..] == rest;
    }
  }

  /** A run that was never cancelled and cannot go on has returned nil. */
  lemma UncancelledRunReturnsNil(c: Config, w: World)
    requires ValidConfig(c) && Reachable(c, w) && !w.cancelled
    requires forall a :: Enabled(c, w, a) ==> a.Cancel?
    ensures w.main == Returned(false)
  {
    ReachableInv(c, w);
    if !w.main.Returned? {
      var a := NextStep(c, Outcomes({}, {}), w);
    }
  }
}
