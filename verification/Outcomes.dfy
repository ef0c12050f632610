/** Fixing one outcome per node costs no generality: since no node is applied or polled twice, the
    answers of any run, however arbitrary, come from some choice of outcomes. */
module OutcomesExist {
  import opened NodeStates
  import opened Machine
  import opened Invariant
  import opened Safety
  import opened Refinement

  /** The node's `Apply` answer lies behind, and with `polled` also its readiness answer. */
  predicate SpentLocal(polled: bool, s: NodeStatus, pc: Pc) {
    && s.state != Pending && pc != ToApply && pc != InApply
    && (polled ==> pc != AfterApply && pc != ToWaiting && pc != Polling)
  }

  predicate Spent(polled: bool, w: World, id: string) {
    id in w.nodes && SpentLocal(polled, w.nodes[id], PcOf(w, id))
  }

  lemma StepLocalStaysSpent(polled: bool, maxRetries: int, polls: bool, l: Local, ok: bool, now: int, msg: string)
    requires LocalInv(maxRetries, polls, l) && SpentLocal(polled, l.status, l.pc)
    ensures var l' := StepLocal(l, polls, ok, now, msg); SpentLocal(polled, l'.status, l'.pc)
  {
  }

  lemma NodeStaysSpent(polled: bool, c: Config, w: World, a: Action, id: string)
    requires NodesInv(c, w) && Enabled(c, w, a) && a.NodeStep? && Spent(polled, w, id)
    ensures Spent(polled, Act(c, w, a), id)
  {
    assert NodeInv(c, w, id);
    if a.id == id {
      StepLocalStaysSpent(polled, c.maxRetries, NeedsReadiness(c, id),
                          Local(w.nodes[id], w.pcs[id], w.applyCalls[id]), a.ok, a.now, a.msg);
    }
  }

  lemma ActStaysSpent(polled: bool, c: Config, w: World, a: Action, id: string)
    requires ValidConfig(c) && Inv(c, w) && Enabled(c, w, a) && Spent(polled, w, id)
    ensures Spent(polled, Act(c, w, a), id)
  {
    match a
    case Cancel =>
    case MainStep(now) =>
      if w.main == FindReady {
        WaveStart(c, w, now, id);
      }
    case NodeStep(_, _, _, _) => NodeStaysSpent(polled, c, w, a, id);
  }

  /** `o` and `o'` differ at most in the answers `id` has already received. */
  ghost predicate DifferAt(polled: bool, o: Outcomes, o': Outcomes, id: string) {
    && (forall x :: x != id ==> (x in o.applies <==> x in o'.applies))
    && (forall x :: x != id || !polled ==> (x in o.becomesReady <==> x in o'.becomesReady))
  }

  lemma {:induction false} SpentAnswersDoNotMatter(polled: bool, c: Config, o: Outcomes, o': Outcomes, w: World,
                                                   sched: seq<Action>, id: string)
    requires ValidConfig(c) && Inv(c, w) && Schedulable(c, w, sched) && AllAgree(c, o, w, sched)
    requires Spent(polled, w, id) && DifferAt(polled, o, o', id)
    ensures AllAgree(c, o', w, sched)
    decreases |sched|
  {
    if sched != [] {
      ActKeepsInv(c, w, sched[0]);
      ActStaysSpent(polled, c, w, sched[0], id);
      SpentAnswersDoNotMatter(polled, c, o, o', Act(c, w, sched[0]), sched[1..], id);
      assert Agrees(o, w, sched[0]);
    }
  }

  /** Receiving an answer spends it. */
  lemma AnsweredIsSpent(c: Config, w: World, a: Action)
    requires NodesInv(c, w) && Enabled(c, w, a) && a.NodeStep?
    ensures w.pcs[a.id] == InApply ==> Spent(false, Act(c, w, a), a.id)
    ensures w.pcs[a.id] == Polling ==> Spent(true, Act(c, w, a), a.id)
  {
    assert NodeInv(c, w, a.id);
  }

  function Put(s: set<string>, id: string, member: bool): set<string> {
    if member then s + {id} else s - {id}
  }

  /** The outcomes, changed so that they give the answer of `a`. */
  function Adjusted(o: Outcomes, w: World, a: Action): Outcomes {
    if !a.NodeStep? || a.id !in w.pcs then o
    else if w.pcs[a.id] == InApply then o.(applies := Put(o.applies, a.id, a.ok))
    else if w.pcs[a.id] == Polling then o.(becomesReady := Put(o.becomesReady, a.id, a.ok))
    else o
  }

  lemma AdjustedDiffers(o: Outcomes, w: World, a: Action)
    requires a.NodeStep? && a.id in w.pcs && (w.pcs[a.id] == InApply || w.pcs[a.id] == Polling)
    ensures DifferAt(w.pcs[a.id] == Polling, o, Adjusted(o, w, a), a.id)
  {
  }

  /** Changing the outcomes to give one more, earlier, answer does not disturb the later ones. */
  lemma AdjustedStillAgrees(c: Config, o: Outcomes, w: World, a: Action, rest: seq<Action>)
    requires ValidConfig(c) && Inv(c, w) && Enabled(c, w, a)
    requires Schedulable(c, Act(c, w, a), rest) && AllAgree(c, o, Act(c, w, a), rest)
    ensures AllAgree(c, Adjusted(o, w, a), Act(c, w, a), rest)
  {
    ActKeepsInv(c, w, a);
    if a.NodeStep? && (w.pcs[a.id] == InApply || w.pcs[a.id] == Polling) {
      AnsweredIsSpent(c, w, a);
      AdjustedDiffers(o, w, a);
      SpentAnswersDoNotMatter(w.pcs[a.id] == Polling, c, o, Adjusted(o, w, a), Act(c, w, a), rest, a.id);
    }
  }

  lemma {:induction false} EveryRunHasOutcomes(c: Config, w: World, sched: seq<Action>) returns (o: Outcomes)
    requires ValidConfig(c) && Inv(c, w) && Schedulable(c, w, sched)
    ensures AllAgree(c, o, w, sched)
    decreases |sched|
  {
    if sched == [] {
      o := Outcomes({}, {});
    } else {
      ActKeepsInv(c, w, sched[0]);
      o := EveryRunHasOutcomes(c, Act(c, w, sched[0]), sched[1..]);
      AdjustedStillAgrees(c, o, w, sched[0], sched[1..]);
      o := Adjusted(o, w, sched[0]);
    }
  }

  /** So every run that returns nil, whatever `Apply` and `Check` answered, ends in the states of a
      sequential walk under some outcomes. */
  lemma EveryRunRefinesSomeWalk(c: Config, w: World, sched: seq<Action>) returns (o: Outcomes)
    requires ValidConfig(c) && ReachedBy(c, w, sched) && w.main == Returned(false)
    ensures forall id :: id in c.dag.nodeMap ==>
              && id in w.nodes && id in Walk(c, o, |c.dag.order|)
              && w.nodes[id].state == Walk(c, o, |c.dag.order|)[id]
  {
    InitInv(c);
    o := EveryRunHasOutcomes(c, Init(c), sched);
    forall id | id in c.dag.nodeMap
      ensures id in w.nodes && id in Walk(c, o, |c.dag.order|) && w.nodes[id].state == Walk(c, o, |c.dag.order|)[id]
    {
      WavesRefineWalk(c, o, w, sched, id);
    }
  }
}
