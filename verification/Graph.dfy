/** The graph artifact and its validation (pkg/graph/types.go, pkg/graph/validation.go). */
module GraphTypes {
  import opened Common

  datatype Object = Object(kind: string, apiVersion: string, name: string)

  datatype ApplyPolicy = ApplyPolicy(mode: string, conflictPolicy: string, fieldManager: string)

  /** `timeout` is in seconds. */
  datatype Predicate = Predicate(ptype: string, conditionType: string, conditionStatus: string, timeout: int)

  datatype Node = Node(id: string, obj: Object, applyPolicy: ApplyPolicy,
                       dependsOn: seq<string>, readyWhen: seq<Predicate>)

  datatype Graph = Graph(name: string, version: string, nodes: seq<Node>)

  datatype ValidationError =
    | NameRequired
    | VersionRequired
    | IdRequired
    | DuplicateId(id: string)
    | BadNode(id: string)

  // ---- single-node checks ----

  /** The defaults that `ApplyPolicy.Validate` fills in before checking. The caller iterates over
      copies of the nodes, so they never reach the graph itself. */
  function WithDefaults(p: ApplyPolicy): ApplyPolicy {
    ApplyPolicy(if p.mode == "" then "Apply" else p.mode,
                if p.conflictPolicy == "" then "Error" else p.conflictPolicy,
                if p.fieldManager == "" then "pequod-operator" else p.fieldManager)
  }

  predicate PolicyValid(p: ApplyPolicy) {
    var q := WithDefaults(p);
    q.mode in ["Apply", "Create", "Adopt"] && q.conflictPolicy in ["Error", "Force"]
  }

  predicate PredicateValid(p: Predicate) {
    && (p.ptype == "ConditionMatch" ==> p.conditionType != "" && p.conditionStatus != "")
    && p.ptype in ["ConditionMatch", "DeploymentAvailable", "Exists"]
    && p.timeout >= 0
  }

  predicate NodeValid(n: Node, ids: set<string>) {
    && n.id != ""
    && n.obj.kind != "" && n.obj.apiVersion != "" && n.obj.name != ""
    && PolicyValid(n.applyPolicy)
    && (forall i :: 0 <= i < |n.dependsOn| ==> n.dependsOn[i] in ids)
    && (forall i :: 0 <= i < |n.readyWhen| ==> PredicateValid(n.readyWhen[i]))
  }

  // ---- what a valid graph is, field by field ----

  /** Of a known type, complete for that type, and without a negative timeout. */
  ghost predicate AcceptedPredicate(p: Predicate) {
    && p.timeout >= 0
    && (|| p.ptype == "Exists"
        || p.ptype == "DeploymentAvailable"
        || (p.ptype == "ConditionMatch" && p.conditionType != "" && p.conditionStatus != ""))
  }

  /** Known words, or nothing where there is a default. */
  ghost predicate AcceptedPolicy(p: ApplyPolicy) {
    && (p.mode == "" || p.mode == "Apply" || p.mode == "Create" || p.mode == "Adopt")
    && (p.conflictPolicy == "" || p.conflictPolicy == "Error" || p.conflictPolicy == "Force")
  }

  ghost predicate AcceptedNode(n: Node, g: Graph) {
    && n.id != "" && n.obj.kind != "" && n.obj.apiVersion != "" && n.obj.name != ""
    && AcceptedPolicy(n.applyPolicy)
    && (forall d :: d in n.dependsOn ==> exists j :: 0 <= j < |g.nodes| && g.nodes[j].id == d)
    && (forall q :: q in n.readyWhen ==> AcceptedPredicate(q))
  }

  ghost predicate Valid(g: Graph) {
    && g.name != "" && g.version != ""
    && (forall i, j :: 0 <= i < j < |g.nodes| ==> g.nodes[i].id != g.nodes[j].id)
    && (forall i :: 0 <= i < |g.nodes| ==> AcceptedNode(g.nodes[i], g))
  }

  /** The checks of the code accept exactly these. */
  lemma PredicateChecks(p: Predicate)
    ensures PredicateValid(p) <==> AcceptedPredicate(p)
  {
  }

  lemma PolicyChecks(p: ApplyPolicy)
    ensures PolicyValid(p) <==> AcceptedPolicy(p)
  {
  }

  /** A default takes the place of an empty field only. */
  lemma DefaultsMeaning(p: ApplyPolicy)
    ensures var q := WithDefaults(p);
            && (if p.mode == "" then q.mode == "Apply" else q.mode == p.mode)
            && (if p.conflictPolicy == "" then q.conflictPolicy == "Error" else q.conflictPolicy == p.conflictPolicy)
            && (if p.fieldManager == "" then q.fieldManager == "pequod-operator" else q.fieldManager == p.fieldManager)
  {
  }

  function Ids(g: Graph): set<string> {
    set i | 0 <= i < |g.nodes| :: g.nodes[i].id
  }

  lemma NodeChecks(n: Node, g: Graph)
    ensures NodeValid(n, Ids(g)) <==> AcceptedNode(n, g)
  {
    forall q | q in n.readyWhen ensures PredicateValid(q) <==> AcceptedPredicate(q) {
      PredicateChecks(q);
    }
    PolicyChecks(n.applyPolicy);
    assert forall d :: d in Ids(g) <==> exists j :: 0 <= j < |g.nodes| && g.nodes[j].id == d;
    assert (forall i :: 0 <= i < |n.dependsOn| ==> n.dependsOn[i] in Ids(g)) <==>
           (forall d :: d in n.dependsOn ==> d in Ids(g));
    assert (forall i :: 0 <= i < |n.readyWhen| ==> PredicateValid(n.readyWhen[i])) <==>
           (forall q :: q in n.readyWhen ==> PredicateValid(q));
  }

  /** `Graph.Validate`: the first fault found, or none. Accepts exactly the valid graphs, and each
      reported fault is really there. */
  method Validate(g: Graph) returns (err: Option<ValidationError>)
    ensures err.None? <==> Valid(g)
    ensures err == Some(NameRequired) <==> g.name == ""
    ensures err == Some(VersionRequired) <==> g.name != "" && g.version == ""
    ensures err == Some(IdRequired) ==> exists i :: 0 <= i < |g.nodes| && g.nodes[i].id == ""
    ensures err.Some? && err.value.DuplicateId? ==>
              exists i, j :: 0 <= i < j < |g.nodes| && g.nodes[i].id == err.value.id == g.nodes[j].id
    ensures err.Some? && err.value.BadNode? ==>
              && (forall i, j :: 0 <= i < j < |g.nodes| ==> g.nodes[i].id != g.nodes[j].id)
              && exists i :: 0 <= i < |g.nodes| && g.nodes[i].id == err.value.id && !AcceptedNode(g.nodes[i], g)
  {
    if g.name == "" {
      return Some(NameRequired);
    }
    if g.version == "" {
      return Some(VersionRequired);
    }
    var ids: set<string> := {};
    for k := 0 to |g.nodes|
      invariant ids == set i | 0 <= i < k :: g.nodes[i].id
      invariant forall i, j :: 0 <= i < j < k ==> g.nodes[i].id != g.nodes[j].id
    {
      var id := g.nodes[k].id;
      if id == "" {
        assert !AcceptedNode(g.nodes[k], g);
        return Some(IdRequired);
      }
      if id in ids {
        return Some(DuplicateId(id));
      }
      ids := ids + {id};
    }
    assert ids == Ids(g);
    for k := 0 to |g.nodes|
      invariant forall i :: 0 <= i < k ==> AcceptedNode(g.nodes[i], g)
    {
      NodeChecks(g.nodes[k], g);
      // The dependency check that follows this loop in the source repeats one made here.
      if !NodeValid(g.nodes[k], ids) {
        return Some(BadNode(g.nodes[k].id));
      }
    }
    return None;
  }
}
