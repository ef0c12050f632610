/** The executor's own loops (pkg/graph/executor.go) over the shared state object. `ExecuteNode` is
    shown to follow the goroutine program of the machine step by step, and `Execute` with a pool of
    one worker, cancelled at any time or never, is one of the machine's runs. */
module Executor {
  import opened Common
  import opened NodeStates
  import opened Machine
  import opened Invariant
  import opened Refinement
  import opened Termination

  // ---- findReadyNodes ----

  method FindReadyNodes(c: Config, state: ExecutionState) returns (ready: seq<string>)
    ensures ready == ReadyNodes(c, state.nodeStates, |c.dag.order|)
  {
    ready := [];
    for k := 0 to |c.dag.order|
      invariant ready == ReadyNodes(c, state.nodeStates, k)
    {
      var id := c.dag.order[k];
      var nodeState := state.GetState(id);
      if nodeState != Some(Pending) && nodeState != Some(Error) {
        continue;
      }
      if nodeState == Some(Error) && state.nodeStates[id].retryCount >= c.maxRetries {
        continue;
      }
      var deps := Deps(c, id);
      var allReady := true;
      for j := 0 to |deps|
        invariant allReady ==> forall i :: 0 <= i < j ==> IsReady(state.nodeStates, deps[i])
        invariant !allReady ==> !DepsReady(c, state.nodeStates, id)
      {
        if state.GetState(deps[j]) != Some(Ready) {
          assert deps[j] in Deps(c, id);
          allReady := false;
          break;
        }
      }
      assert allReady <==> DepsReady(c, state.nodeStates, id);
      if allReady {
        ready := ready + [id];
      }
    }
  }

  // ---- executeNode ----

  /** Which answers the goroutine of one node gets, and the clock and error text it uses. */
  datatype Fate = Fate(applies: bool, becomesReady: bool, cancelled: bool, now: int, msg: string)

  function Answer(f: Fate, pc: Pc): bool {
    match pc
    case InApply => f.applies
    case Polling => f.becomesReady
    case Backoff => !f.cancelled
    case _ => true
  }

  function Next(l: Local, polls: bool, f: Fate): Local {
    StepLocal(l, polls, Answer(f, l.pc), f.now, f.msg)
  }

  /** Where the machine's goroutine program ends when it is run from `l` with the answers `f`. */
  ghost function Finish(l: Local, polls: bool, f: Fate): Local
    decreases PcRank(l.pc)
  {
    if l.pc == Done then l else Finish(Next(l, polls, f), polls, f)
  }

  /** `executeNode` from the moment its goroutine starts. Line by line it is the goroutine program of
      the machine, and it changes no other node. */
  method ExecuteNode(state: ExecutionState, id: string, polls: bool, f: Fate, ghost calls: nat) returns (err: bool)
    requires id in state.nodeStates
    modifies state`nodeStates
    ensures state.nodeStates ==
              old(state.nodeStates)[id := Finish(Local(old(state.nodeStates)[id], Starting, calls), polls, f).status]
    ensures err <==> state.nodeStates[id].state != Ready
  {
    ghost var l0 := Local(state.nodeStates[id], Starting, calls);
    ghost var l := Next(l0, polls, f);
    var current := state.GetState(id);
    if current == Some(Error) {
      l := Next(l, polls, f);
      assert Finish(l0, polls, f) == Finish(l, polls, f);
      if f.cancelled {
        return true;
      }
      var _ := state.IncrementRetry(id, f.now);
      l := Next(l, polls, f);
      assert Finish(l0, polls, f) == Finish(l, polls, f);
    }
    assert l == Local(state.nodeStates[id], ToApplying, calls);
    err := ApplyNode(state, id, polls, f, l);
  }

  /** The rest of `executeNode`, from the request for Applying. */
  method ApplyNode(state: ExecutionState, id: string, polls: bool, f: Fate, ghost l0: Local) returns (err: bool)
    requires id in state.nodeStates && l0.status == state.nodeStates[id] && l0.pc == ToApplying
    modifies state`nodeStates
    ensures state.nodeStates == old(state.nodeStates)[id := Finish(l0, polls, f).status]
    ensures err <==> state.nodeStates[id].state != Ready
  {
    ghost var l := Next(l0, polls, f);
    var accepted := state.SetState(id, Applying, f.now);
    if !accepted {
      var _ := state.SetError(id, f.msg);
      l := Next(l, polls, f);
      assert Finish(l0, polls, f) == Finish(l, polls, f) == l;
      return true;
    }
    l := Next(l, polls, f);
    assert Finish(l0, polls, f) == Finish(l, polls, f);
    l := Next(l, polls, f);
    assert Finish(l0, polls, f) == Finish(l, polls, f);
    if !f.applies {
      var _ := state.SetError(id, f.msg);
      l := Next(l, polls, f);
      assert Finish(l0, polls, f) == Finish(l, polls, f) == l;
      return true;
    }
    l := Next(l, polls, f);
    assert l.status == state.nodeStates[id];
    err := AwaitNode(state, id, polls, f, l);
  }

  /** The rest of `executeNode`, after a successful `Apply`. */
  method AwaitNode(state: ExecutionState, id: string, polls: bool, f: Fate, ghost l0: Local) returns (err: bool)
    requires id in state.nodeStates && l0.status == state.nodeStates[id]
    requires l0.pc == if polls then ToWaiting else ToReady
    modifies state`nodeStates
    ensures state.nodeStates == old(state.nodeStates)[id := Finish(l0, polls, f).status]
    ensures err <==> state.nodeStates[id].state != Ready
  {
    ghost var l := l0;
    if polls {
      l := Next(l, polls, f);
      assert Finish(l0, polls, f) == Finish(l, polls, f);
      var waiting := state.SetState(id, WaitingReady, f.now);
      if !waiting {
        var _ := state.SetError(id, f.msg);
        l := Next(l, polls, f);
        assert Finish(l0, polls, f) == Finish(l, polls, f) == l;
        return true;
      }
      l := Next(l, polls, f);
      assert Finish(l0, polls, f) == Finish(l, polls, f);
      if !f.becomesReady {
        var _ := state.SetError(id, f.msg);
        l := Next(l, polls, f);
        assert Finish(l0, polls, f) == Finish(l, polls, f) == l;
        return true;
      }
    }
    assert l.status == state.nodeStates[id] && l.pc == ToReady;
    l := Next(l, polls, f);
    assert Finish(l0, polls, f) == Finish(l, polls, f);
    var accepted := state.SetState(id, Ready, f.now);
    if !accepted {
      var _ := state.SetError(id, f.msg);
      l := Next(l, polls, f);
      assert Finish(l0, polls, f) == Finish(l, polls, f) == l;
      return true;
    }
    return false;
  }

  // ---- Execute with one worker ----

  lemma {:induction false} Extend(c: Config, o: Outcomes, w: World, sched: seq<Action>, a: Action)
    requires Schedulable(c, w, sched) && Enabled(c, After(c, w, sched), a)
    requires AllAgree(c, o, w, sched) && Agrees(o, After(c, w, sched), a)
    ensures Schedulable(c, w, sched + [a]) && AllAgree(c, o, w, sched + [a])
    ensures After(c, w, sched + [a]) == Act(c, After(c, w, sched), a)
    decreases |sched|
  {
    if sched == [] {
      assert Schedulable(c, Act(c, w, a), []) && AllAgree(c, o, Act(c, w, a), []);
      assert (sched + [a])[1..] == [];
    } else {
      Extend(c, o, Act(c, w, sched[0]), sched[1..], a);
      assert (sched + [a])[1..] == sched[1..] + [a];
    }
  }

  /** A run of the machine so far: it agrees with the outcomes and stands at `w`. */
  ghost predicate RunAt(c: Config, o: Outcomes, w: World, sched: seq<Action>) {
    ReachedUnder(c, o, w, sched) && w.waves <= MaxWaves(c)
  }

  lemma RunAtInv(c: Config, o: Outcomes, w: World, sched: seq<Action>)
    requires ValidConfig(c) && RunAt(c, o, w, sched)
    ensures Inv(c, w) && WaveInv(c, w)
  {
    InitInv(c);
    InitWaveInv(c);
    RunKeepsInv(c, Init(c), sched);
    RunLength(c, Init(c), sched);
  }

  lemma Take(c: Config, o: Outcomes, w: World, sched: seq<Action>, a: Action)
    returns (w': World, sched': seq<Action>)
    requires ValidConfig(c) && RunAt(c, o, w, sched) && Enabled(c, w, a) && Agrees(o, w, a)
    ensures w' == Act(c, w, a) && RunAt(c, o, w', sched') && Rank(c, w') < Rank(c, w)
  {
    w', sched' := Act(c, w, a), sched + [a];
    Extend(c, o, Init(c), sched, a);
    RunAtInv(c, o, w, sched);
    ActLowersRank(c, w, a);
  }

  predicate FateFits(o: Outcomes, w: World, id: string, f: Fate) {
    f.applies == (id in o.applies) && f.becomesReady == (id in o.becomesReady) && (f.cancelled ==> w.cancelled)
  }

  function LocalOf(w: World, id: string): Local
    requires id in w.pcs && id in w.nodes && id in w.applyCalls
  {
    Local(w.nodes[id], w.pcs[id], w.applyCalls[id])
  }

  /** The goroutine of `id` has moved to `l`, and nothing else has moved. */
  ghost predicate Stepped(w: World, w': World, id: string, l: Local) {
    && w'.main == w.main && w'.cancelled == w.cancelled && w'.pcs == w.pcs[id := l.pc]
    && w'.nodes == w.nodes[id := l.status] && w'.applyCalls == w.applyCalls[id := l.calls]
  }

  lemma GoroutineActs(c: Config, o: Outcomes, f: Fate, w: World, id: string)
    requires w.main == InWave && FateFits(o, w, id, f)
    requires id in w.pcs && id in w.nodes && id in w.applyCalls && Running(w.pcs[id])
    ensures var a := NodeStep(id, Answer(f, w.pcs[id]), f.now, f.msg);
            && Enabled(c, w, a) && Agrees(o, w, a)
            && Stepped(w, Act(c, w, a), id, Next(LocalOf(w, id), NeedsReadiness(c, id), f))
  {
  }

  lemma GoroutineStep(c: Config, o: Outcomes, f: Fate, w: World, sched: seq<Action>, id: string)
    returns (w': World, sched': seq<Action>)
    requires ValidConfig(c) && RunAt(c, o, w, sched) && w.main == InWave && FateFits(o, w, id, f)
    requires id in w.pcs && id in w.nodes && id in w.applyCalls && Running(w.pcs[id])
    ensures RunAt(c, o, w', sched') && Rank(c, w') <= Rank(c, w)
    ensures var l := Next(LocalOf(w, id), NeedsReadiness(c, id), f);
            && Stepped(w, w', id, l)
            && PcRank(l.pc) < PcRank(w.pcs[id]) && l.pc != Queued
  {
    var ok := Answer(f, w.pcs[id]);
    StepLocalLowersPc(LocalOf(w, id), NeedsReadiness(c, id), ok, f.now, f.msg);
    GoroutineActs(c, o, f, w, id);
    w', sched' := Take(c, o, w, sched, NodeStep(id, ok, f.now, f.msg));
  }

  lemma SteppedTwice(w: World, v: World, w': World, id: string, l: Local, l': Local)
    requires Stepped(w, v, id, l) && Stepped(v, w', id, l')
    ensures Stepped(w, w', id, l')
  {
  }

  lemma {:induction false} FinishIsDone(l: Local, polls: bool, f: Fate)
    ensures Finish(l, polls, f).pc == Done
    decreases PcRank(l.pc)
  {
    if l.pc != Done {
      StepLocalLowersPc(l, polls, Answer(f, l.pc), f.now, f.msg);
      FinishIsDone(Next(l, polls, f), polls, f);
    }
  }

  /** The machine can run one started goroutine to its end while all others stand still. */
  lemma {:induction false} RunGoroutine(c: Config, o: Outcomes, f: Fate, w: World, sched: seq<Action>, id: string)
    returns (w': World, sched': seq<Action>)
    requires ValidConfig(c) && RunAt(c, o, w, sched) && w.main == InWave && FateFits(o, w, id, f)
    requires id in w.pcs && id in w.nodes && id in w.applyCalls && w.pcs[id] != Queued
    ensures RunAt(c, o, w', sched') && Rank(c, w') <= Rank(c, w)
    ensures Stepped(w, w', id, Finish(LocalOf(w, id), NeedsReadiness(c, id), f)) && w'.pcs == w.pcs[id := Done]
    decreases PcRank(w.pcs[id])
  {
    var l, polls := LocalOf(w, id), NeedsReadiness(c, id);
    FinishIsDone(l, polls, f);
    if w.pcs[id] == Done {
      w', sched' := w, sched;
    } else {
      var v, s := GoroutineStep(c, o, f, w, sched, id);
      var l1 := Next(l, polls, f);
      assert LocalOf(v, id) == l1;
      w', sched' := RunGoroutine(c, o, f, v, s, id);
      SteppedTwice(w, v, w', id, l1, Finish(l1, polls, f));
    }
  }

  lemma {:induction false} ReadyNodesDistinct(c: Config, m: Statuses, k: nat)
    requires Distinct(c.dag.order) && k <= |c.dag.order|
    ensures Distinct(ReadyNodes(c, m, k))
  {
    if k > 0 {
      ReadyNodesDistinct(c, m, k - 1);
      ReadyNodesExact(c, m, k - 1, c.dag.order[k - 1]);
    }
  }

  /** The goroutines of a wave, some finished and some not yet started. */
  ghost predicate WaveAt(w: World, ready: seq<string>, k: nat)
    requires k <= |ready|
  {
    && w.main == InWave
    && (forall id :: id in w.pcs <==> id in ready)
    && forall i :: 0 <= i < |ready| ==> w.pcs[ready[i]] == if i < k then Done else Queued
  }

  /** What the executor learns about its context: `done(t)` says whether cancellation has come by its
      look number `t`, and `timerFirst(t)` whether a backoff that starts then still sees its timer
      first. */
  datatype Context = Context(done: nat -> bool, timerFirst: nat -> bool)

  ghost predicate NeverDone(ctx: Context) {
    forall t :: !ctx.done(t)
  }

  /** A look at the context; once cancelled it stays cancelled. */
  method Look(c: Config, o: Outcomes, ctx: Context, t: nat, was: bool, ghost w0: World, ghost sched0: seq<Action>)
    returns (cancelled: bool, ghost w: World, ghost sched: seq<Action>)
    requires ValidConfig(c) && RunAt(c, o, w0, sched0) && was == w0.cancelled
    ensures RunAt(c, o, w, sched) && w == w0.(cancelled := cancelled) && Rank(c, w) <= Rank(c, w0)
    ensures cancelled == (was || ctx.done(t))
  {
    cancelled, w, sched := was, w0, sched0;
    if !was && ctx.done(t) {
      cancelled := true;
      w, sched := Take(c, o, w0, sched0, Cancel);
    }
  }

  /** `executeNodes` with one worker. */
  method ExecuteNodes(c: Config, o: Outcomes, ctx: Context, state: ExecutionState, ready: seq<string>,
                      now: int, msg: string, t0: nat, was: bool, ghost w0: World, ghost sched0: seq<Action>)
    returns (t: nat, cancelled: bool, ghost w: World, ghost sched: seq<Action>)
    requires ValidConfig(c) && RunAt(c, o, w0, sched0) && w0.nodes == state.nodeStates && was == w0.cancelled
    requires Distinct(ready) && WaveAt(w0, ready, 0)
    modifies state`nodeStates
    ensures RunAt(c, o, w, sched) && w.nodes == state.nodeStates && WaveAt(w, ready, |ready|)
    ensures Rank(c, w) <= Rank(c, w0) && cancelled == w.cancelled && (NeverDone(ctx) ==> cancelled == was)
  {
    t, cancelled, w, sched := t0, was, w0, sched0;
    for k := 0 to |ready|
      invariant RunAt(c, o, w, sched) && w.nodes == state.nodeStates && WaveAt(w, ready, k)
      invariant Rank(c, w) <= Rank(c, w0) && cancelled == w.cancelled && (NeverDone(ctx) ==> cancelled == was)
    {
      cancelled, w, sched := Look(c, o, ctx, t, cancelled, w, sched);
      ghost var started, s := StartGoroutine(c, o, w, sched, ready, k);
      ghost var previous := w;
      w, sched := RunTask(c, o, state, ready[k], cancelled && !ctx.timerFirst(t), now, msg, started, s);
      WaveAdvances(previous, w, ready, k);
      t := t + 1;
    }
  }

  lemma WaveAdvances(w: World, w': World, ready: seq<string>, k: nat)
    requires Distinct(ready) && k < |ready| && WaveAt(w, ready, k)
    requires w'.main == InWave && w'.pcs == w.pcs[ready[k] := Starting][ready[k] := Done]
    ensures WaveAt(w', ready, k + 1)
  {
  }

  /** One task of the pool, run to its end. */
  method RunTask(c: Config, o: Outcomes, state: ExecutionState, id: string, interrupted: bool, now: int, msg: string,
                 ghost w0: World, ghost sched0: seq<Action>)
    returns (ghost w: World, ghost sched: seq<Action>)
    requires ValidConfig(c) && RunAt(c, o, w0, sched0) && w0.nodes == state.nodeStates
    requires w0.main == InWave && (interrupted ==> w0.cancelled) && id in w0.pcs && w0.pcs[id] == Starting
    requires id in w0.nodes && id in w0.applyCalls
    modifies state`nodeStates
    ensures RunAt(c, o, w, sched) && w.nodes == state.nodeStates && Rank(c, w) <= Rank(c, w0)
    ensures w.main == InWave && w.cancelled == w0.cancelled && w.pcs == w0.pcs[id := Done]
  {
    var f := Fate(id in o.applies, id in o.becomesReady, interrupted, now, msg);
    var _ := ExecuteNode(state, id, NeedsReadiness(c, id), f, w0.applyCalls[id]);
    w, sched := RunGoroutine(c, o, f, w0, sched0, id);
  }

  lemma WaveNodesAreKnown(c: Config, o: Outcomes, w: World, sched: seq<Action>, id: string)
    requires ValidConfig(c) && RunAt(c, o, w, sched) && id in w.pcs
    ensures id in w.nodes && id in w.applyCalls
  {
    RunAtInv(c, o, w, sched);
  }

  lemma NoneRunning(w: World, ready: seq<string>, k: nat)
    requires k <= |ready| && WaveAt(w, ready, k)
    ensures RunningNodes(w) == {}
  {
  }

  lemma StartGoroutine(c: Config, o: Outcomes, w: World, sched: seq<Action>, ready: seq<string>, k: nat)
    returns (w': World, sched': seq<Action>)
    requires ValidConfig(c) && RunAt(c, o, w, sched) && Distinct(ready) && k < |ready| && WaveAt(w, ready, k)
    ensures RunAt(c, o, w', sched') && Rank(c, w') <= Rank(c, w)
    ensures w'.nodes == w.nodes && w'.main == InWave && w'.cancelled == w.cancelled
    ensures ready[k] in w'.nodes && ready[k] in w'.applyCalls && w'.pcs == w.pcs[ready[k] := Starting]
  {
    assert ready[k] in w.pcs;
    WaveNodesAreKnown(c, o, w, sched, ready[k]);
    NoneRunning(w, ready, k);
    w', sched' := Take(c, o, w, sched, NodeStep(ready[k], true, 0, ""));
  }

  /** The rest of the loop body in `Execute`, after the look at the context: nothing is ready, or a
      wave is run to its end. */
  method NextWave(c: Config, o: Outcomes, ctx: Context, state: ExecutionState, now: int, msg: string,
                  t0: nat, was: bool, ghost w0: World, ghost sched0: seq<Action>)
    returns (more: bool, t: nat, cancelled: bool, ghost w: World, ghost sched: seq<Action>)
    requires ValidConfig(c) && RunAt(c, o, w0, sched0) && w0.nodes == state.nodeStates && was == w0.cancelled
    requires w0.main == FindReady
    modifies state`nodeStates
    ensures RunAt(c, o, w, sched) && w.nodes == state.nodeStates && Rank(c, w) < Rank(c, w0)
    ensures w.main == (if more then LoopHead else Finishing)
    ensures cancelled == w.cancelled && (NeverDone(ctx) ==> cancelled == was)
  {
    var ready := FindReadyNodes(c, state);
    w, sched := Take(c, o, w0, sched0, MainStep(now));
    more, t, cancelled := ready != [], t0, was;
    if more {
      ReadyNodesDistinct(c, state.nodeStates, |c.dag.order|);
      t, cancelled, w, sched := ExecuteNodes(c, o, ctx, state, ready, now, msg, t, cancelled, w, sched);
      w, sched := Take(c, o, w, sched, MainStep(now));
    }
  }

  /** Every node is in the state that the sequential walk gives it or, after an error, still Pending. */
  ghost predicate EndsLikeWalk(c: Config, o: Outcomes, m: Statuses, err: bool) {
    forall id :: id in c.dag.nodeMap ==>
      && id in m && id in Walk(c, o, |c.dag.order|)
      && (m[id].state == Walk(c, o, |c.dag.order|)[id] || (err && m[id].state == Pending))
  }

  /** `Execute` with one worker. It terminates. If it returns nil, every node is in the state that the
      sequential walk gives it; if it returns the context's error, every node is in that state or
      still Pending. */
  method Execute(c: Config, o: Outcomes, ctx: Context, now: int, msg: string)
    returns (state: ExecutionState, err: bool, ghost w: World, ghost sched: seq<Action>)
    requires ValidConfig(c)
    ensures fresh(state) && state.endTime == (if err then None else Some(now))
    ensures ReachedUnder(c, o, w, sched) && w.main == Returned(err) && w.nodes == state.nodeStates
    ensures NeverDone(ctx) ==> !err
    ensures EndsLikeWalk(c, o, state.nodeStates, err)
  {
    state := new ExecutionState(c.dag.order);
    err, w, sched := false, Init(c), [];
    var t, cancelled := 0, false;
    InitInv(c);
    InitWaveInv(c);
    while true
      invariant RunAt(c, o, w, sched) && w.nodes == state.nodeStates && w.main == LoopHead && cancelled == w.cancelled
      invariant fresh(state) && state.endTime == None && !err && (NeverDone(ctx) ==> !cancelled)
      decreases Rank(c, w)
    {
      var complete := state.IsComplete();
      w, sched := Take(c, o, w, sched, MainStep(now));
      if complete {
        break;
      }
      cancelled, w, sched := Look(c, o, ctx, t, cancelled, w, sched);
      t := t + 1;
      w, sched := Take(c, o, w, sched, MainStep(now));
      if cancelled {
        err := true;
        break;
      }
      var more;
      more, t, cancelled, w, sched := NextWave(c, o, ctx, state, now, msg, t, cancelled, w, sched);
      if !more {
        break;
      }
    }
    if !err {
      state.MarkComplete(now);
      w, sched := Take(c, o, w, sched, MainStep(now));
    }
    ReturnedStates(c, o, w, sched);
  }

  lemma ReturnedStates(c: Config, o: Outcomes, w: World, sched: seq<Action>)
    requires ValidConfig(c) && ReachedUnder(c, o, w, sched) && w.main.Returned?
    ensures EndsLikeWalk(c, o, w.nodes, w.main.err)
  {
    forall id | id in c.dag.nodeMap
      ensures id in w.nodes && id in Walk(c, o, |c.dag.order|)
      ensures w.nodes[id].state == Walk(c, o, |c.dag.order|)[id] || (w.main.err && w.nodes[id].state == Pending)
    {
      AnyTimeMeaning(c, o, w, sched, id);
      if !w.main.err {
        WavesRefineWalk(c, o, w, sched, id);
      }
    }
  }
}
