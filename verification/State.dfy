/** Per-node execution state (pkg/graph/state.go). The functions on `Statuses` say what each locked
    method does to the status map; the class holds that map and updates it in place. */
module NodeStates {
  import opened Common

  datatype NodeState = Pending | Applying | WaitingReady | Ready | Error

  datatype NodeStatus = NodeStatus(state: NodeState, error: string, startTime: Option<int>,
                                   readyTime: Option<int>, retryCount: nat, lastRetryTime: Option<int>)

  type Statuses = map<string, NodeStatus>

  const FRESH := NodeStatus(Pending, "", None, None, 0, None)

  // ---- the transition table ----

  /** The states that `validateStateTransition` permits after `from`. */
  function Allowed(from: NodeState): seq<NodeState> {
    match from
    case Pending => [Applying, Error]
    case Applying => [WaitingReady, Ready, Error]
    case WaitingReady => [Ready, Error]
    case Ready => []
    case Error => [Pending]
  }

  /** How far along a node is; `Error` sits beside the successful chain. */
  function Stage(s: NodeState): nat {
    match s
    case Pending => 0
    case Applying => 1
    case WaitingReady => 2
    case Ready => 3
    case Error => 3
  }

  /** The shape of the table: it only moves forward, except that `Error` may go back to `Pending`.
      In particular nothing leaves `Ready`, and `Error` never leads straight to `Applying`. */
  lemma TableShape(from: NodeState, to: NodeState)
    ensures to in Allowed(from) <==>
              || (from == Error && to == Pending)
              || (Stage(from) < Stage(to) && !(from == Pending && to in [WaitingReady, Ready]))
  {
    match from
    case Pending => assert Allowed(from) == [Applying, Error];
    case Applying => assert Allowed(from) == [WaitingReady, Ready, Error];
    case WaitingReady => assert Allowed(from) == [Ready, Error];
    case Ready => assert Allowed(from) == [];
    case Error => assert Allowed(from) == [Pending];
  }

  // ---- effects of the locked methods ----

  function Moved(s: NodeStatus, to: NodeState, now: int): NodeStatus {
    match to
    case Applying => s.(state := to, startTime := if s.startTime.None? then Some(now) else s.startTime)
    case Ready => s.(state := to, readyTime := Some(now))
    case _ => s.(state := to)
  }

  function Failed(s: NodeStatus, msg: string): NodeStatus {
    s.(state := Error, error := msg)
  }

  function Retried(s: NodeStatus, now: int): NodeStatus {
    s.(retryCount := s.retryCount + 1, lastRetryTime := Some(now))
  }

  function AfterSetState(m: Statuses, id: string, to: NodeState, now: int): Statuses {
    if id in m && to in Allowed(m[id].state) then m[id := Moved(m[id], to, now)] else m
  }

  function AfterSetError(m: Statuses, id: string, msg: string): Statuses {
    if id in m then m[id := Failed(m[id], msg)] else m
  }

  function AfterIncrementRetry(m: Statuses, id: string, now: int): Statuses {
    if id in m then m[id := Retried(m[id], now)] else m
  }

  function NewStatuses(ids: seq<string>): Statuses {
    map id | id in ids :: FRESH
  }

  /** Every node is in a terminal state; `Error` counts as terminal. */
  predicate Complete(m: Statuses) {
    forall id :: id in m ==> m[id].state == Ready || m[id].state == Error
  }

  // ---- the effects, field by field ----

  /** A node other than `id` is as before, and no node appears or goes. */
  ghost predicate OnlyAt(before: Statuses, after: Statuses, id: string) {
    before.Keys == after.Keys && forall x :: x in before && x != id ==> after[x] == before[x]
  }

  /** The moves that are permitted. */
  predicate Permitted(from: NodeState, to: NodeState) {
    || (from == Pending && (to == Applying || to == Error))
    || (from == Applying && (to == WaitingReady || to == Ready || to == Error))
    || (from == WaitingReady && (to == Ready || to == Error))
    || (from == Error && to == Pending)
  }

  lemma AllowedMeaning(from: NodeState, to: NodeState)
    ensures to in Allowed(from) <==> Permitted(from, to)
  {
    TableShape(from, to);
  }

  /** A permitted move sets the state; the first move to Applying and every move to Ready are stamped. */
  lemma SetStateMeaning(m: Statuses, id: string, to: NodeState, now: int)
    ensures var m' := AfterSetState(m, id, to, now);
            && OnlyAt(m, m', id)
            && (id in m ==>
                  var s, s' := m[id], m'[id];
                  if !Permitted(s.state, to) then s' == s
                  else && s'.state == to && s'.error == s.error && s'.retryCount == s.retryCount
                       && s'.lastRetryTime == s.lastRetryTime
                       && s'.startTime == (if to == Applying && s.startTime == None then Some(now) else s.startTime)
                       && s'.readyTime == (if to == Ready then Some(now) else s.readyTime))
  {
    if id in m {
      AllowedMeaning(m[id].state, to);
    }
  }

  /** Recording an error sets state and message, and recording a retry counts and stamps it. */
  lemma RecordingMeaning(m: Statuses, id: string, msg: string, now: int)
    ensures OnlyAt(m, AfterSetError(m, id, msg), id) && OnlyAt(m, AfterIncrementRetry(m, id, now), id)
    ensures id in m ==>
              var s, e, r := m[id], AfterSetError(m, id, msg)[id], AfterIncrementRetry(m, id, now)[id];
              && e == NodeStatus(Error, msg, s.startTime, s.readyTime, s.retryCount, s.lastRetryTime)
              && r == NodeStatus(s.state, s.error, s.startTime, s.readyTime, s.retryCount + 1, Some(now))
  {
  }

  // ---- the shared object ----

  class ExecutionState {
    var nodeStates: Statuses
    var endTime: Option<int>

    constructor (nodeIds: seq<string>)
      ensures nodeStates == NewStatuses(nodeIds) && endTime == None
      ensures forall id :: id in nodeStates <==> id in nodeIds
      ensures forall id :: id in nodeStates ==>
                nodeStates[id] == NodeStatus(Pending, "", None, None, 0, None)
    {
      var states: Statuses := map[];
      for k := 0 to |nodeIds|
        invariant states == NewStatuses(nodeIds[..k])
      {
        states := states[nodeIds[k] := FRESH];
        assert nodeIds[..k + 1] == nodeIds[..k] + [nodeIds[k]];
      }
      assert nodeIds[..|nodeIds|] == nodeIds;
      nodeStates := states;
      endTime := None;
    }

    function GetState(id: string): Option<NodeState>
      reads this
    {
      if id in nodeStates then Some(nodeStates[id].state) else None
    }

    method SetState(id: string, to: NodeState, now: int) returns (ok: bool)
      modifies this`nodeStates
      ensures ok <==> id in old(nodeStates) && to in Allowed(old(nodeStates)[id].state)
      ensures nodeStates == AfterSetState(old(nodeStates), id, to, now)
    {
      if id !in nodeStates {
        return false;
      }
      var status := nodeStates[id];
      var allowed := Allowed(status.state);
      if to !in allowed {
        return false;
      }
      status := status.(state := to);
      match to {
        case Applying =>
          if status.startTime.None? {
            status := status.(startTime := Some(now));
          }
        case Ready =>
          status := status.(readyTime := Some(now));
        case _ =>
      }
      nodeStates := nodeStates[id := status];
      return true;
    }

    /** Not checked against the transition table. */
    method SetError(id: string, msg: string) returns (ok: bool)
      modifies this`nodeStates
      ensures ok <==> id in old(nodeStates)
      ensures nodeStates == AfterSetError(old(nodeStates), id, msg)
    {
      if id !in nodeStates {
        return false;
      }
      nodeStates := nodeStates[id := nodeStates[id].(state := Error, error := msg)];
      return true;
    }

    method IncrementRetry(id: string, now: int) returns (ok: bool)
      modifies this`nodeStates
      ensures ok <==> id in old(nodeStates)
      ensures nodeStates == AfterIncrementRetry(old(nodeStates), id, now)
    {
      if id !in nodeStates {
        return false;
      }
      var status := nodeStates[id];
      nodeStates := nodeStates[id := status.(retryCount := status.retryCount + 1, lastRetryTime := Some(now))];
      return true;
    }

    /** Scans the statuses in an arbitrary order. */
    method IsComplete() returns (complete: bool)
      ensures complete <==> Complete(nodeStates)
      ensures complete <==> forall id :: id in nodeStates ==> nodeStates[id].state in {Ready, Error}
    {
      var todo := nodeStates.Keys;
      while todo != {}
        invariant todo <= nodeStates.Keys
        invariant forall id :: id in nodeStates && id !in todo ==> nodeStates[id].state in [Ready, Error]
        decreases todo
      {
        var id :| id in todo;
        if nodeStates[id].state != Ready && nodeStates[id].state != Error {
          return false;
        }
        todo := todo - {id};
      }
      return true;
    }

    method MarkComplete(now: int)
      modifies this`endTime
      ensures endTime == Some(now)
    {
      endTime := Some(now);
    }
  }
}
