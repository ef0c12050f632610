/** The ResourceGraph reconciler's phase machine
    (internal/controller/resourcegraph_controller.go). Conversion, validation and DAG building
    appear as one verdict on the fetched spec, the executor as the two facts the reconciler reads
    from it, and API calls as calls that may fail. */
module Reconciler {
  import opened Common

  datatype Phase = Unset | Executing | Completed | Failed

  /** What the API server stores. Editing the spec raises `generation`; status and finalizer writes
      do not. */
  datatype Stored = Stored(generation: nat, deleting: bool, finalizer: bool, phase: Phase, observed: nat)

  /** What `Execute` returned: an error, and whether the state it returned is complete. */
  datatype Execution = Execution(err: bool, complete: bool)

  datatype Fetch = Fetched | NotFound | FetchFailed

  /** Everything outside the reconciler's control in one call. Reads come from the client's cache, so
      the first one may return an outdated object, `view`. Each status write fetches the object again;
      the API server refuses a write that is based on an outdated one, so a write that succeeds was
      based on the current object. `edits1` and `edits2` are spec edits that arrive before the first
      and before the last status write of the call. */
  datatype Env = Env(fetch: Fetch, view: Option<Stored>, finalizerWritten: bool, accepted: bool, edits1: nat,
                     startWritten: bool, execution: Execution, edits2: nat, endWritten: bool)

  /** `requeue` is the request in the returned Result, `err` whether an error is returned. */
  datatype Outcome = Outcome(executed: bool, rejected: bool, requeue: bool, err: bool)

  const QUIET := Outcome(false, false, false, false)

  /** The controller calls again after an error as well as on request. */
  predicate ComesBack(out: Outcome) {
    out.requeue || out.err
  }

  predicate Terminal(p: Phase) {
    p == Completed || p == Failed
  }

  /** The graph has been dealt with at its current generation. */
  predicate Settled(s: Stored) {
    Terminal(s.phase) && s.observed == s.generation
  }

  /** `updateStatusFromExecution`: the recorded phase. */
  function RecordedPhase(x: Execution): Phase {
    if !x.err && x.complete then Completed else Failed
  }

  // ---- one reconcile ----

  predicate FreshRead(e: Env) {
    e.view == None
  }

  /** The object that the call works on. */
  function Seen(s: Stored, e: Env): Stored {
    if e.view.Some? then e.view.value else s
  }

  /** The finalizer is written on the object as first read, so an outdated one is refused. */
  predicate FinalizerStored(s: Stored, e: Env) {
    e.finalizerWritten && Seen(s, e) == s
  }

  /** A status write stamps the generation of the object as re-fetched, after any edits. */
  function Stamp(s: Stored, edits: nat, p: Phase, written: bool): Stored {
    var latest := s.(generation := s.generation + edits);
    if written then latest.(phase := p, observed := latest.generation) else latest
  }

  function Reconciled(s: Stored, e: Env): (Stored, Outcome) {
    var seen := Seen(s, e);
    if e.fetch != Fetched then (s, QUIET.(err := e.fetch == FetchFailed))
    else if seen.deleting then
      if !seen.finalizer then (s, QUIET)
      else if FinalizerStored(s, e) then (s.(finalizer := false), QUIET)
      else (s, QUIET.(err := true))
    else if !seen.finalizer then
      if FinalizerStored(s, e) then (s.(finalizer := true), QUIET.(requeue := true))
      else (s, QUIET.(err := true))
    else if Settled(seen) then (s, QUIET)
    else if !e.accepted then
      (Stamp(s, e.edits1, Failed, e.endWritten), Outcome(false, true, !e.endWritten, !e.endWritten))
    else if !e.startWritten then
      (Stamp(s, e.edits1, Executing, false), Outcome(false, false, true, true))
    else
      (Stamp(Stamp(s, e.edits1, Executing, true), e.edits2, RecordedPhase(e.execution), e.endWritten),
       Outcome(true, false, !e.endWritten || !e.execution.complete, !e.endWritten))
  }

  class ResourceGraph {
    var generation: nat
    var deleting: bool
    var finalizer: bool
    var phase: Phase
    var observed: nat

    function Value(): Stored
      reads this
    {
      Stored(generation, deleting, finalizer, phase, observed)
    }

    /** `Reconcile`, writing the stored object step by step. `Execute` always runs the spec fetched
        at the start of the call. */
    method Reconcile(e: Env) returns (out: Outcome)
      modifies this
      ensures (Value(), out) == Reconciled(old(Value()), e)
    {
      if e.fetch != Fetched {
        return QUIET.(err := e.fetch == FetchFailed);
      }
      var rg := Seen(Value(), e);
      var updated := FinalizerStored(Value(), e);
      if rg.deleting {
        if rg.finalizer {
          if !updated {
            return QUIET.(err := true);
          }
          finalizer := false;
        }
        return QUIET;
      }
      if !rg.finalizer {
        if !updated {
          return QUIET.(err := true);
        }
        finalizer := true;
        return QUIET.(requeue := true);
      }
      if rg.phase == Completed || rg.phase == Failed {
        if rg.observed == rg.generation {
          return QUIET;
        }
      }
      out := ExecuteGraph(e);
    }

    method ExecuteGraph(e: Env) returns (out: Outcome)
      requires e.fetch == Fetched
      requires var rg := Seen(Value(), e); !rg.deleting && rg.finalizer && !Settled(rg)
      modifies this
      ensures (Value(), out) == Reconciled(old(Value()), e)
    {
      generation := generation + e.edits1;
      if !e.accepted {
        if e.endWritten {
          phase, observed := Failed, generation;
        }
        return Outcome(false, true, !e.endWritten, !e.endWritten);
      }
      if !e.startWritten {
        return Outcome(false, false, true, true);
      }
      phase, observed := Executing, generation;
      generation := generation + e.edits2;
      if !e.endWritten {
        return Outcome(true, false, true, true);
      }
      if !e.execution.err && e.execution.complete {
        phase := Completed;
      } else {
        phase := Failed;
      }
      observed := generation;
      return Outcome(true, false, !e.execution.complete, false);
    }
  }

  // ---- what one call does, field by field ----

  /** The object has what it takes to be worked on: not being deleted, with its finalizer, and not in a
      terminal phase for its own generation. */
  ghost predicate NeedsWork(v: Stored) {
    !v.deleting && v.finalizer && !((v.phase == Completed || v.phase == Failed) && v.observed == v.generation)
  }

  /** Deletion removes the finalizer, and a new object gets it; both are stored only if the object was
      read fresh. Nothing else changes, no work is done, and a refused write is an error. */
  lemma FinalizerMeaning(s: Stored, e: Env, v: Stored)
    requires v == (if e.view.Some? then e.view.value else s) && (e.fetch != Fetched || !NeedsWork(v))
    ensures var (s', out), stored := Reconciled(s, e), e.finalizerWritten && v == s;
            && !out.executed && !out.rejected
            && (e.fetch == NotFound ==> s' == s && !out.requeue && !out.err)
            && (e.fetch == FetchFailed ==> s' == s && !out.requeue && out.err)
            && (e.fetch == Fetched && v.deleting && v.finalizer ==>
                  s' == (if stored then s.(finalizer := false) else s) && !out.requeue && (out.err <==> !stored))
            && (e.fetch == Fetched && !v.deleting && !v.finalizer ==>
                  && s' == (if stored then s.(finalizer := true) else s)
                  && (out.requeue <==> stored) && (out.err <==> !stored))
            && (e.fetch == Fetched && (v.deleting <==> !v.finalizer) ==> s' == s && !out.requeue && !out.err)
  {
  }

  /** The work: a rejected spec is recorded as Failed, a started one as Executing, and a finished one as
      Completed when there was no error and the state was complete, else as Failed; each with the
      generation found at that write. A lost write is an error and asks to come again. */
  lemma WorkMeaning(s: Stored, e: Env, v: Stored)
    requires v == (if e.view.Some? then e.view.value else s) && NeedsWork(v) && e.fetch == Fetched
    ensures var (s', out) := Reconciled(s, e);
            && s'.deleting == s.deleting && s'.finalizer == s.finalizer
            && (out.executed <==> e.accepted && e.startWritten) && (out.rejected <==> !e.accepted)
            && (out.err <==> !e.endWritten || (e.accepted && !e.startWritten))
            && (out.requeue <==> out.err || (e.accepted && !e.execution.complete))
            && s'.generation == s.generation + e.edits1 + (if e.accepted && e.startWritten then e.edits2 else 0)
            && (s'.phase, s'.observed) ==
                 if !e.accepted then (if e.endWritten then (Failed, s'.generation) else (s.phase, s.observed))
                 else if !e.startWritten then (s.phase, s.observed)
                 else if !e.endWritten then (Executing, s.generation + e.edits1)
                 else if !e.execution.err && e.execution.complete then (Completed, s'.generation)
                 else (Failed, s'.generation)
  {
  }

  // ---- whole histories ----

  datatype Event = Edit | MarkDeleted | Call(env: Env)

  /** The stored object together with: per call that got that far, the generation whose spec was
      executed or rejected; the generations that lost their final status write; the generations
      executed from an outdated read; whether every execution was allowed; and the last status write that
      was stored. */
  datatype History = History(stored: Stored, executed: seq<nat>, rejected: seq<nat>, lost: seq<nat>,
                             outdated: seq<nat>, guarded: bool, last: Write)

  /** A stored status write: of the start of an execution, of its end, or of a rejection. */
  datatype Write = NoWrite | Start | End(x: Execution) | Rejection

  function LastWrite(before: Write, e: Env, out: Outcome): Write {
    if out.executed then (if e.endWritten then End(e.execution) else Start)
    else if out.rejected && e.endWritten then Rejection
    else before
  }

  /** The finalizer is stored and the object is not being deleted; after an outdated read the deletion
      may have begun. */
  predicate MayExecute(s: Stored, e: Env) {
    if FreshRead(e) then s.finalizer && !s.deleting else s.finalizer || s.deleting
  }

  function Observe(h: History, e: Event): History {
    match e
    case Edit => h.(stored := h.stored.(generation := h.stored.generation + 1))
    case MarkDeleted => h.(stored := h.stored.(deleting := true))
    case Call(env) =>
      var (s, out) := Reconciled(h.stored, env);
      var g := Seen(h.stored, env).generation;
      History(s,
              if out.executed then h.executed + [g] else h.executed,
              if out.rejected then h.rejected + [g] else h.rejected,
              if out.executed && !env.endWritten then h.lost + [h.stored.generation] else h.lost,
              if out.executed && !FreshRead(env) then h.outdated + [g] else h.outdated,
              h.guarded && (out.executed ==> MayExecute(h.stored, env)),
              LastWrite(h.last, env, out))
  }

  function ObserveAll(h: History, es: seq<Event>): History {
    if es == [] then h else Observe(ObserveAll(h, es[..|es| - 1]), es[|es| - 1])
  }

  /** A freshly created object: never reconciled. */
  function Created(generation: nat): History {
    History(Stored(generation, false, false, Unset, 0), [], [], [], [], true, NoWrite)
  }

  function Count(gs: seq<nat>, g: nat): nat {
    multiset(gs)[g]
  }

  /** What the stored object was after the first `j` events. */
  function StoredAt(generation: nat, es: seq<Event>, j: nat): Stored
    requires j <= |es|
  {
    ObserveAll(Created(generation), es[..j]).stored
  }

  ghost predicate WasStored(generation: nat, es: seq<Event>, i: nat, v: Stored)
    requires i <= |es|
  {
    exists j :: 0 <= j <= i && StoredAt(generation, es, j) == v
  }

  /** Every outdated read returns an object that was stored at some earlier time. */
  ghost predicate ReadsThePast(generation: nat, es: seq<Event>) {
    forall i :: 0 <= i < |es| && es[i].Call? && es[i].env.view.Some? ==>
      WasStored(generation, es, i, es[i].env.view.value)
  }

  // ---- what can change over time ----

  predicate Later(v: Stored, s: Stored) {
    && v.generation <= s.generation
    && (v.deleting ==> s.deleting)
    && (v.finalizer ==> s.finalizer || s.deleting)
  }

  lemma ObserveIsLater(h: History, e: Event)
    ensures Later(h.stored, Observe(h, e).stored)
  {
  }

  lemma {:induction false} StoredGrows(generation: nat, es: seq<Event>, j: nat, i: nat)
    requires j <= i <= |es|
    ensures Later(StoredAt(generation, es, j), StoredAt(generation, es, i))
    decreases i
  {
    if j < i {
      StoredGrows(generation, es, j, i - 1);
      assert es[..i][..i - 1] == es[..i - 1];
      ObserveIsLater(ObserveAll(Created(generation), es[..i - 1]), es[i - 1]);
    }
  }

  /** So whatever is read, now or late, is not ahead of what is stored. */
  lemma ReadIsPast(generation: nat, es: seq<Event>, i: nat)
    requires ReadsThePast(generation, es) && i < |es| && es[i].Call?
    ensures var s := StoredAt(generation, es, i); Later(Seen(s, es[i].env), s)
  {
    if es[i].env.view.Some? {
      assert WasStored(generation, es, i, es[i].env.view.value);
      var j :| 0 <= j <= i && StoredAt(generation, es, j) == es[i].env.view.value;
      StoredGrows(generation, es, j, i);
    }
  }

  // ---- what the phase tells ----

  /** Over every history the stored phase tells the last stored status write: a start, a rejection, or the
      end of an execution that was complete and without error, or not. */
  lemma {:induction false} PhaseTellsLastWrite(generation: nat, es: seq<Event>)
    ensures var h := ObserveAll(Created(generation), es);
            h.stored.phase == match h.last
                              case NoWrite => Unset
                              case Start => Executing
                              case Rejection => Failed
                              case End(x) => if !x.err && x.complete then Completed else Failed
  {
    if es != [] {
      PhaseTellsLastWrite(generation, es[..|es| - 1]);
      var h, e := ObserveAll(Created(generation), es[..|es| - 1]), es[|es| - 1];
      if e.Call? && e.env.fetch == Fetched && NeedsWork(Seen(h.stored, e.env)) {
        WorkMeaning(h.stored, e.env, Seen(h.stored, e.env));
      } else if e.Call? {
        FinalizerMeaning(h.stored, e.env, Seen(h.stored, e.env));
      }
    }
  }

  /** A call that can finish the deletion. */
  predicate Releases(e: Event) {
    e.Call? && e.env.fetch == Fetched && FreshRead(e.env) && e.env.finalizerWritten
  }

  lemma DeletionStep(h: History, e: Event)
    requires h.stored.deleting && (e.Call? ==> FreshRead(e.env))
    ensures var s, s' := h.stored, Observe(h, e).stored;
            && s'.deleting && s'.phase == s.phase && s'.observed == s.observed
            && (s'.finalizer <==> s.finalizer && !Releases(e))
            && Observe(h, e).executed == h.executed
  {
    if e.Call? {
      FinalizerMeaning(h.stored, e.env, h.stored);
    }
  }

  /** An object being deleted keeps its finalizer exactly until the first call that finds it and can write;
      it is never executed again. */
  lemma {:induction false} DeletionCompletes(h: History, es: seq<Event>)
    requires h.stored.deleting && forall i :: 0 <= i < |es| && es[i].Call? ==> FreshRead(es[i].env)
    ensures var h' := ObserveAll(h, es);
            && h'.stored.deleting && h'.stored.phase == h.stored.phase && h'.executed == h.executed
            && (h'.stored.finalizer <==> h.stored.finalizer && forall i :: 0 <= i < |es| ==> !Releases(es[i]))
  {
    if es != [] {
      var init, e := es[..|es| - 1], es[|es| - 1];
      DeletionCompletes(h, init);
      DeletionStep(ObserveAll(h, init), e);
      assert es == init + [e];
    }
  }

  // ---- Execute runs at most once per generation ----

  ghost predicate OnceInv(h: History) {
    && h.guarded
    && (forall g :: Count(h.executed, g) <= Count(h.lost, g) + Count(h.outdated, g) + 1)
    && (forall g :: g in h.executed ==> g <= h.stored.generation)
    && (Settled(h.stored) || Spent(h, h.stored.generation))
  }

  /** Every execution of `g` is made up for by a lost write or an outdated read. */
  predicate Spent(h: History, g: nat) {
    Count(h.executed, g) <= Count(h.lost, g) + Count(h.outdated, g)
  }

  lemma CountAppend(gs: seq<nat>, g: nat, x: nat)
    ensures Count(gs + [g], x) == Count(gs, x) + (if x == g then 1 else 0)
    ensures x !in gs ==> Count(gs, x) == 0
  {
  }

  /** What one call can do to a generation. */
  lemma ReconciledShape(s: Stored, e: Env)
    ensures var (s', out) := Reconciled(s, e);
            && s'.generation >= s.generation
            && (out.executed ==> Seen(s, e).finalizer && !Seen(s, e).deleting && !Settled(Seen(s, e)))
            && (out.executed && e.endWritten ==> Settled(s'))
            && (Settled(s) && !out.executed && s'.generation == s.generation ==> Settled(s'))
  {
  }

  /** The counts after a call that executed. */
  lemma ExecutedCounts(h: History, e: Env, x: nat)
    requires Reconciled(h.stored, e).1.executed
    ensures var h', g := Observe(h, Call(e)), Seen(h.stored, e).generation;
            && Count(h'.executed, x) == Count(h.executed, x) + (if x == g then 1 else 0)
            && Count(h'.lost, x) == Count(h.lost, x) + (if !e.endWritten && x == h.stored.generation then 1 else 0)
            && Count(h'.outdated, x) == Count(h.outdated, x) + (if !FreshRead(e) && x == g then 1 else 0)
            && (x !in h.executed ==> Count(h.executed, x) == 0)
  {
    CountAppend(h.executed, Seen(h.stored, e).generation, x);
    CountAppend(h.lost, h.stored.generation, x);
    CountAppend(h.outdated, Seen(h.stored, e).generation, x);
  }

  lemma ExecutionKeepsOnce(h: History, e: Env)
    requires OnceInv(h) && Later(Seen(h.stored, e), h.stored) && Reconciled(h.stored, e).1.executed
    ensures OnceInv(Observe(h, Call(e)))
  {
    var h' := Observe(h, Call(e));
    ReconciledShape(h.stored, e);
    forall x ensures Count(h'.executed, x) <= Count(h'.lost, x) + Count(h'.outdated, x) + 1 {
      ExecutedCounts(h, e, x);
    }
    ExecutedCounts(h, e, h'.stored.generation);
    ExecutedCounts(h, e, h.stored.generation);
  }

  lemma ObserveKeepsOnce(h: History, e: Event)
    requires OnceInv(h) && (e.Call? ==> Later(Seen(h.stored, e.env), h.stored))
    ensures OnceInv(Observe(h, e))
  {
    if e.Call? && Reconciled(h.stored, e.env).1.executed {
      ExecutionKeepsOnce(h, e.env);
    } else {
      var h' := Observe(h, e);
      CountAppend(h.executed, 0, h'.stored.generation);
      if e.Call? {
        ReconciledShape(h.stored, e.env);
      }
    }
  }

  lemma {:induction false} HistoryKeepsOnce(generation: nat, es: seq<Event>, i: nat)
    requires ReadsThePast(generation, es) && i <= |es|
    ensures OnceInv(ObserveAll(Created(generation), es[..i]))
  {
    if i > 0 {
      HistoryKeepsOnce(generation, es, i - 1);
      if es[i - 1].Call? {
        ReadIsPast(generation, es, i - 1);
      }
      assert es[..i][..i - 1] == es[..i - 1];
      ObserveKeepsOnce(ObserveAll(Created(generation), es[..i - 1]), es[i - 1]);
    }
  }

  /** Over every history, `Execute` never runs before the finalizer is stored or, on a fresh read, during
      deletion; and it runs for a generation at most once more often than that generation lost its final
      status write or was executed from an outdated read. */
  lemma AtMostOncePerGeneration(generation: nat, es: seq<Event>, g: nat)
    requires ReadsThePast(generation, es)
    ensures var h := ObserveAll(Created(generation), es);
            h.guarded && Count(h.executed, g) <= 1 + Count(h.lost, g) + Count(h.outdated, g)
  {
    HistoryKeepsOnce(generation, es, |es|);
    assert es[..|es|] == es;
  }

  // ---- exactly when a generation runs again ----

  /** Later calls that read the current object. */
  ghost predicate FreshCalls(es: seq<Event>) {
    forall i :: 0 <= i < |es| && es[i].Call? ==> FreshRead(es[i].env)
  }

  /** Generation `g` is behind: superseded, or current and settled. */
  predicate Past(s: Stored, g: nat) {
    s.generation > g || (s.generation == g && Settled(s))
  }

  lemma PastStaysPast(h: History, e: Event, g: nat)
    requires Past(h.stored, g) && (e.Call? ==> FreshRead(e.env))
    ensures Past(Observe(h, e).stored, g) && Count(Observe(h, e).executed, g) == Count(h.executed, g)
  {
    if e.Call? && Reconciled(h.stored, e.env).1.executed {
      ExecutedCounts(h, e.env, g);
    }
  }

  lemma {:induction false} PastNeverRuns(h: History, es: seq<Event>, g: nat)
    requires Past(h.stored, g) && FreshCalls(es)
    ensures Past(ObserveAll(h, es).stored, g) && Count(ObserveAll(h, es).executed, g) == Count(h.executed, g)
  {
    if es != [] {
      PastNeverRuns(h, es[..|es| - 1], g);
      PastStaysPast(ObserveAll(h, es[..|es| - 1]), es[|es| - 1], g);
    }
  }

  ghost predicate RunsAgain(h: History, g: nat) {
    exists es :: FreshCalls(es) && Count(ObserveAll(h, es).executed, g) > Count(h.executed, g)
  }

  /** A generation that was just executed can run again, through later calls with fresh reads, if and
      only if its final status write was lost and no edit has superseded it. */
  lemma RunsAgainIffWriteLost(h: History, e: Env)
    requires FreshRead(e) && Reconciled(h.stored, e).1.executed
    ensures RunsAgain(Observe(h, Call(e)), h.stored.generation) <==>
              !e.endWritten && e.edits1 == 0 && e.edits2 == 0
  {
    var h', g := Observe(h, Call(e)), h.stored.generation;
    if !e.endWritten && e.edits1 == 0 && e.edits2 == 0 {
      var es := [Call(e)];
      assert es[..0] == [] && ObserveAll(h', []) == h';
      CountAppend(h'.executed, g, g);
      assert ObserveAll(h', es) == Observe(h', Call(e));
      assert Count(ObserveAll(h', es).executed, g) == Count(h'.executed, g) + 1;
    } else {
      forall es | FreshCalls(es) ensures Count(ObserveAll(h', es).executed, g) == Count(h'.executed, g) {
        PastNeverRuns(h', es, g);
      }
    }
  }

  /** In particular the very next call that can execute runs the same generation again under exactly
      that condition. */
  lemma NextCallRunsAgain(s: Stored, e: Env, later: Env)
    requires FreshRead(e) && Reconciled(s, e).1.executed
    requires later.fetch == Fetched && FreshRead(later) && later.accepted && later.startWritten
    ensures var s' := Reconciled(s, e).0;
            (Reconciled(s', later).1.executed && s'.generation == s.generation) <==>
              !e.endWritten && e.edits1 == 0 && e.edits2 == 0
  {
  }

  // ---- an outdated read reruns any generation ----

  /** `v` was stored at some time, and a call that reads it executes generation `g`. */
  ghost predicate RunsFrom(generation: nat, es: seq<Event>, i: nat, v: Stored, g: nat)
    requires i <= |es|
  {
    WasStored(generation, es, i, v) && v.generation == g && v.finalizer && !v.deleting && !Settled(v)
  }

  /** The object from which an executed generation ran. */
  lemma {:induction false} RanFrom(generation: nat, es: seq<Event>, i: nat, g: nat) returns (v: Stored)
    requires ReadsThePast(generation, es) && i <= |es|
    requires g in ObserveAll(Created(generation), es[..i]).executed
    ensures RunsFrom(generation, es, i, v, g)
  {
    var h := ObserveAll(Created(generation), es[..i - 1]);
    assert es[..i][..i - 1] == es[..i - 1];
    if g in h.executed {
      v := RanFrom(generation, es, i - 1, g);
      var j :| 0 <= j <= i - 1 && StoredAt(generation, es, j) == v;
    } else {
      v := Seen(h.stored, es[i - 1].env);
      ReconciledShape(h.stored, es[i - 1].env);
      assert StoredAt(generation, es, i - 1) == h.stored;
      assert WasStored(generation, es, i - 1, v);
      var j :| 0 <= j <= i - 1 && StoredAt(generation, es, j) == v;
    }
    assert WasStored(generation, es, i, v);
  }

  lemma LongerReadsThePast(generation: nat, es: seq<Event>, e: Env)
    requires ReadsThePast(generation, es)
    requires e.view.Some? && WasStored(generation, es, |es|, e.view.value)
    ensures ReadsThePast(generation, es + [Call(e)])
  {
    var more := es + [Call(e)];
    forall i | 0 <= i < |more| && more[i].Call? && more[i].env.view.Some?
      ensures WasStored(generation, more, i, more[i].env.view.value)
    {
      assert WasStored(generation, es, i, more[i].env.view.value);
      var j :| 0 <= j <= i && StoredAt(generation, es, j) == more[i].env.view.value;
      assert more[..j] == es[..j];
      assert StoredAt(generation, more, j) == more[i].env.view.value;
    }
  }

  /** After any history, one more call with an outdated read, whose writes are all stored, can rerun any
      generation that was ever executed. */
  lemma OutdatedReadReruns(generation: nat, es: seq<Event>, g: nat) returns (e: Env)
    requires ReadsThePast(generation, es) && g in ObserveAll(Created(generation), es).executed
    ensures e.startWritten && e.endWritten && ReadsThePast(generation, es + [Call(e)])
    ensures ObserveAll(Created(generation), es + [Call(e)]).executed ==
              ObserveAll(Created(generation), es).executed + [g]
  {
    assert es[..|es|] == es;
    var v := RanFrom(generation, es, |es|, g);
    e := GOOD.(view := Some(v));
    LongerReadsThePast(generation, es, e);
    assert (es + [Call(e)])[..|es|] == es;
  }

  // ---- witnesses ----

  const GOOD := Env(Fetched, None, true, true, 0, true, Execution(false, true), 0, true)

  lemma ObserveThree(h: History, a: Event, b: Event, c: Event)
    ensures ObserveAll(h, [a, b, c]) == Observe(Observe(Observe(h, a), b), c)
  {
    var es := [a, b, c];
    assert es[..2] == [a, b] && [a, b][..1] == [a] && [a][..0] == [];
    assert ObserveAll(h, []) == h;
    assert ObserveAll(h, [a]) == Observe(h, a);
    assert ObserveAll(h, [a, b]) == Observe(Observe(h, a), b);
  }

  /** One lost final write lets the same generation run twice. */
  lemma LostWriteRunsTwice()
    ensures exists es :: FreshCalls(es) && Count(ObserveAll(Created(1), es).executed, 1) == 2
  {
    var es := [Call(GOOD), Call(GOOD.(endWritten := false)), Call(GOOD)];
    ObserveThree(Created(1), es[0], es[1], es[2]);
    assert ObserveAll(Created(1), es).executed == [1, 1];
  }

  /** So does one outdated read, with every write stored. */
  lemma OutdatedReadRunsTwice()
    ensures exists es :: ReadsThePast(1, es) &&
              var h := ObserveAll(Created(1), es); Count(h.executed, 1) == 2 && h.lost == []
  {
    var es := [Call(GOOD), Call(GOOD)];
    assert es[..1] == [es[0]] && [es[0]][..0] == [] && ObserveAll(Created(1), []) == Created(1);
    assert ObserveAll(Created(1), es) == Observe(Observe(Created(1), es[0]), es[1]);
    var e := OutdatedReadReruns(1, es, 1);
    var more := es + [Call(e)];
    assert more[..2] == es;
    assert ObserveAll(Created(1), more).executed == [1, 1];
    assert Count(ObserveAll(Created(1), more).executed, 1) == 2 && ObserveAll(Created(1), more).lost == [];
  }

  // ---- a settled graph was really dealt with, and stays idle ----

  /** A call with a fresh read and no spec edit inside it. */
  predicate Undisturbed(e: Event) {
    e.Call? ==> FreshRead(e.env) && e.env.edits1 == 0 && e.env.edits2 == 0
  }

  ghost predicate DealtWith(h: History) {
    Terminal(h.stored.phase) ==>
      h.stored.observed <= h.stored.generation && h.stored.observed in h.executed + h.rejected
  }

  lemma ObserveKeepsDealtWith(h: History, e: Event)
    requires DealtWith(h) && Undisturbed(e)
    ensures DealtWith(Observe(h, e))
  {
  }

  /** If reads are fresh and no spec edit falls inside a reconcile, then a terminal phase always belongs
      to a generation that was executed or rejected. */
  lemma {:induction false} SettledWasDealtWith(generation: nat, es: seq<Event>)
    requires forall i :: 0 <= i < |es| ==> Undisturbed(es[i])
    ensures DealtWith(ObserveAll(Created(generation), es))
  {
    if es != [] {
      SettledWasDealtWith(generation, es[..|es| - 1]);
      ObserveKeepsDealtWith(ObserveAll(Created(generation), es[..|es| - 1]), es[|es| - 1]);
    }
  }

  /** In any call, the generation that gets settled is the one that was executed or rejected if and
      only if that one was still current when the call began and no edit fell inside the call. */
  lemma EditInsideIsSkipped(s: Stored, e: Env)
    requires Reconciled(s, e).1.executed || Reconciled(s, e).1.rejected
    requires e.endWritten && Later(Seen(s, e), s)
    ensures var s', worked := Reconciled(s, e).0, Seen(s, e).generation;
            Settled(s') &&
            (s'.observed == worked <==>
               worked == s.generation && e.edits1 == 0 && (Reconciled(s, e).1.executed ==> e.edits2 == 0))
  {
  }

  /** So an edit that arrives while the graph executes can settle a generation nobody ran. */
  lemma EditInsideLosesASpec()
    ensures exists es :: FreshCalls(es) && var h := ObserveAll(Created(1), es);
              Settled(h.stored) && h.stored.generation == 2 && h.executed == [1] && h.rejected == []
  {
    var es := [Call(GOOD), Call(GOOD.(edits2 := 1)), Call(GOOD)];
    ObserveThree(Created(1), es[0], es[1], es[2]);
  }

  /** Why a call comes back: the fetch failed, the finalizer was to be written, a status write failed,
      or the execution was incomplete. A call on a fresh read that does not come back leaves the graph
      settled, being deleted or not found. After an incomplete execution coming back changes nothing,
      since the graph is settled. */
  lemma ComingBackMeaning(s: Stored, e: Env, later: Env)
    requires FreshRead(e) && FreshRead(later)
    ensures var (s', out) := Reconciled(s, e);
            && (ComesBack(out) <==>
                  || e.fetch == FetchFailed
                  || (e.fetch == Fetched && s.deleting && s.finalizer && !e.finalizerWritten)
                  || (e.fetch == Fetched && !s.deleting && !s.finalizer)
                  || (e.fetch == Fetched && !s.deleting && s.finalizer && !Settled(s) &&
                      (!e.endWritten || (e.accepted && (!e.startWritten || !e.execution.complete)))))
            && (!ComesBack(out) ==> Settled(s') || s'.deleting || e.fetch == NotFound)
            && (out.executed && e.endWritten ==>
                  (ComesBack(out) <==> !e.execution.complete) && Reconciled(s', later).0 == s'
                  && !Reconciled(s', later).1.executed)
  {
  }

  lemma {:induction false} SettledStaysIdle(h: History, es: seq<Event>)
    requires Settled(h.stored) && h.stored.finalizer && !h.stored.deleting && FreshCalls(es)
    requires forall i :: 0 <= i < |es| ==> es[i].Call?
    ensures ObserveAll(h, es) == h
  {
    if es != [] {
      SettledStaysIdle(h, es[..|es| - 1]);
    }
  }

  /** A settled graph, including one that asked to be requeued because it was incomplete, is left
      alone by every later call until its spec is edited; after the edit the next call that finds it
      with an acceptable spec and a writable status executes it. */
  lemma {:induction false} IdleUntilEdited(h: History, es: seq<Event>, env: Env)
    requires Settled(h.stored) && h.stored.finalizer && !h.stored.deleting && FreshCalls(es)
    requires forall i :: 0 <= i < |es| ==> es[i].Call?
    requires env.fetch == Fetched && FreshRead(env) && env.accepted && env.startWritten
    ensures ObserveAll(h, es) == h
    ensures var edited := Observe(h, Edit);
            Observe(edited, Call(env)).executed == h.executed + [h.stored.generation + 1]
  {
    SettledStaysIdle(h, es);
  }
}
