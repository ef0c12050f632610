/** What the recorded phase says about an execution
    (internal/controller/resourcegraph_controller.go over pkg/graph/executor.go). */
module Phases {
  import opened GraphTypes
  import opened Paths
  import opened DagBuilder
  import opened NodeStates
  import opened Machine
  import opened Invariant
  import opened Safety
  import opened Refinement
  import opened Termination
  import R = Reconciler

  /** What the reconciler reads from a returned execution. */
  ghost function ResultOf(w: World): R.Execution
    requires w.main.Returned?
  {
    R.Execution(w.main.err, Complete(w.nodes))
  }

  ghost predicate HasDependent(c: Config, id: string) {
    exists x :: x in c.dag.nodeMap && id in Deps(c, x)
  }

  ghost predicate NonePending(c: Config, w: World) {
    forall id :: id in c.dag.nodeMap ==> id in w.nodes && w.nodes[id].state != Pending
  }

  ghost predicate FailuresAreLeaves(c: Config, w: World) {
    forall id :: id in c.dag.nodeMap && id in w.nodes && w.nodes[id].state == Error ==> !HasDependent(c, id)
  }

  /** Between waves, complete means that nothing is Pending. */
  lemma CompleteMeansNonePending(c: Config, w: World)
    requires ValidConfig(c) && Inv(c, w) && w.main.Returned?
    ensures Complete(w.nodes) <==> NonePending(c, w)
  {
    forall id | id in w.nodes ensures w.nodes[id].state in {Pending, Ready, Error} {
      assert NodeInv(c, w, id);
    }
  }

  lemma FailedLeafBlocksNothing(c: Config, w: World)
    requires ValidConfig(c) && Reachable(c, w) && w.main == Returned(false)
    ensures NonePending(c, w) <==> FailuresAreLeaves(c, w)
  {
    ReachableInv(c, w);
    forall id | id in c.dag.nodeMap && id in w.nodes && w.nodes[id].state == Error && HasDependent(c, id)
      ensures !NonePending(c, w)
    {
      var x :| x in c.dag.nodeMap && id in Deps(c, x);
      DepEdge(c.dag.nodeMap, id, x);
      ReachesSelf(GraphEdges(c), id);
      ReachesThenEdge(GraphEdges(c), id, id, x);
      assert BelowError(c, w, x);
      StuckShape(c, w, x);
    }
    forall id | id in c.dag.nodeMap && w.nodes[id].state == Pending ensures !FailuresAreLeaves(c, w) {
      StuckShape(c, w, id);
      var e :| Precedes(GraphEdges(c), e, id) && e in w.nodes && w.nodes[e].state == Error;
      var p :| PathFromTo(GraphEdges(c), p, e, id) && |p| >= 2;
      assert (p[0], p[1]) in GraphEdges(c);
      DepEdge(c.dag.nodeMap, e, p[1]);
      assert HasDependent(c, e);
    }
  }

  /** The recorded phase is Completed exactly when `Execute` leaves no node Pending; for a run that
      was never cancelled this says that no failed node has a dependent. An error return always
      comes with an incomplete state, so the error itself never decides the phase. */
  lemma PhaseMeaning(c: Config, w: World)
    requires ValidConfig(c) && Reachable(c, w) && w.main.Returned?
    ensures R.RecordedPhase(ResultOf(w)) == R.Completed <==> NonePending(c, w)
    ensures w.main.err ==> w.cancelled && !Complete(w.nodes)
    ensures !w.cancelled ==> (R.RecordedPhase(ResultOf(w)) == R.Completed <==> FailuresAreLeaves(c, w))
  {
    ReachableInv(c, w);
    CompleteMeansNonePending(c, w);
    if w.main == Returned(false) {
      FailedLeafBlocksNothing(c, w);
    }
  }

  /** Completed does not mean success: a lone node whose `Apply` fails ends in Error, and the graph is
      recorded as Completed. */
  lemma CompletedWithFailure() returns (c: Config, w: World)
    ensures ValidConfig(c) && Reachable(c, w) && w.main == Returned(false)
    ensures "a" in w.nodes && w.nodes["a"].state == Error
    ensures R.RecordedPhase(ResultOf(w)) == R.Completed
  {
    var node := Node("a", Object("ConfigMap", "v1", "a"), ApplyPolicy("", "", ""), [], []);
    c := Config(Dag(map["a" := node], ["a"]), 1, 0);
    var o := Outcomes({}, {});
    InitInv(c);
    InitWaveInv(c);
    var sched := CanFinish(c, o, Init(c));
    w := After(c, Init(c), sched);
    assert ReachedBy(c, w, sched);
    ReachableInv(c, w);
    assert ReachedUnder(c, o, w, sched);
    assert AncestorsSucceed(c, o, "a") by {
      AncestorStep(c, o, "a");
      assert Deps(c, "a") == [];
    }
    ReturnStates(c, o, w, sched, "a");
    PhaseMeaning(c, w);
  }
}
