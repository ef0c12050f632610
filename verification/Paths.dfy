/** Directed paths over a finite edge set. An edge `(a, b)` says that `a` must complete before `b`. */
module Paths {
  import opened Common

  type Edges = set<(string, string)>

  ghost predicate IsPath(edges: Edges, p: seq<string>) {
    && |p| >= 1
    && forall i :: 0 <= i < |p| - 1 ==> (p[i], p[i + 1]) in edges
  }

  /** `p` leads from `a` to `b`; a single node is a path to itself. */
  ghost predicate PathFromTo(edges: Edges, p: seq<string>, a: string, b: string) {
    IsPath(edges, p) && p[0] == a && p[|p| - 1] == b
  }

  ghost predicate Reaches(edges: Edges, a: string, b: string) {
    exists p :: PathFromTo(edges, p, a, b)
  }

  /** `a` reaches `b` over at least one edge. */
  ghost predicate Precedes(edges: Edges, a: string, b: string) {
    exists p :: PathFromTo(edges, p, a, b) && |p| >= 2
  }

  ghost predicate Acyclic(edges: Edges) {
    forall a :: !Precedes(edges, a, a)
  }

  lemma ReachesSelf(edges: Edges, a: string)
    ensures Reaches(edges, a, a)
  {
    assert PathFromTo(edges, [a], a, a);
  }

  /** A path that ends at `a` is extended by an edge out of `a`. */
  lemma ReachesThenEdge(edges: Edges, x: string, a: string, b: string)
    requires Reaches(edges, x, a) && (a, b) in edges
    ensures Precedes(edges, x, b) && Reaches(edges, x, b)
  {
    var p :| PathFromTo(edges, p, x, a);
    assert PathFromTo(edges, p + [b], x, b);
  }

  /** A path that starts at `b` is extended by an edge into `b`. */
  lemma EdgeThenReaches(edges: Edges, a: string, b: string, x: string)
    requires (a, b) in edges && Reaches(edges, b, x)
    ensures Precedes(edges, a, x) && Reaches(edges, a, x)
  {
    var p :| PathFromTo(edges, p, b, x);
    assert PathFromTo(edges, [a] + p, a, x);
  }

  /** The last edge of a non-trivial path. */
  lemma LastEdge(edges: Edges, a: string, b: string) returns (m: string)
    requires Precedes(edges, a, b)
    ensures (m, b) in edges && Reaches(edges, a, m)
  {
    var p :| PathFromTo(edges, p, a, b) && |p| >= 2;
    m := p[|p| - 2];
    assert PathFromTo(edges, p[..|p| - 1], a, m);
  }

  lemma ReachesInMore(few: Edges, more: Edges, a: string, b: string)
    requires few <= more && Reaches(few, a, b)
    ensures Reaches(more, a, b)
  {
    var p :| PathFromTo(few, p, a, b);
    assert PathFromTo(more, p, a, b);
  }

  lemma ReachesTransitive(edges: Edges, a: string, b: string, c: string)
    requires Reaches(edges, a, b) && Reaches(edges, b, c)
    ensures Reaches(edges, a, c)
  {
    var p :| PathFromTo(edges, p, a, b);
    var q :| PathFromTo(edges, q, b, c);
    assert PathFromTo(edges, p + q[1..], a, c);
  }

  // ---- adding one edge ----

  /** A path over one more edge either avoids that edge or runs up to it and on from it. */
  lemma {:induction false} PathAroundEdge(edges: Edges, s: string, t: string, p: seq<string>)
    requires IsPath(edges + {(s, t)}, p)
    ensures Reaches(edges, p[0], p[|p| - 1]) || (Reaches(edges, p[0], s) && Reaches(edges, t, p[|p| - 1]))
    decreases |p|
  {
    if |p| == 1 {
      ReachesSelf(edges, p[0]);
    } else {
      var init, m, y := p[..|p| - 1], p[|p| - 2], p[|p| - 1];
      assert (m, y) in edges + {(s, t)};
      PathAroundEdge(edges, s, t, init);
      if (m, y) in edges {
        if Reaches(edges, p[0], m) {
          ReachesThenEdge(edges, p[0], m, y);
        } else {
          ReachesThenEdge(edges, t, m, y);
        }
      } else {
        ReachesSelf(edges, t);
      }
    }
  }

  /** An edge whose target does not reach its source keeps the relation free of cycles. */
  lemma AddEdgeKeepsAcyclic(edges: Edges, s: string, t: string)
    requires Acyclic(edges) && !Reaches(edges, t, s)
    ensures Acyclic(edges + {(s, t)})
  {
    var more := edges + {(s, t)};
    forall a ensures !Precedes(more, a, a) {
      if Precedes(more, a, a) {
        var m := LastEdge(more, a, a);
        var p :| PathFromTo(more, p, a, m);
        PathAroundEdge(edges, s, t, p);
        if (m, a) in edges {
          if Reaches(edges, a, m) {
            ReachesThenEdge(edges, a, m, a);
          } else {
            ReachesThenEdge(edges, t, m, a);
            ReachesTransitive(edges, t, a, s);
          }
        }
        assert false;
      }
    }
  }

  // ---- orders and cycles ----

  /** Every edge leads from an earlier to a later element of `order`. */
  ghost predicate Forward(order: seq<string>, edges: Edges) {
    forall a, b :: (a, b) in edges ==>
      exists i, j :: 0 <= i < j < |order| && order[i] == a && order[j] == b
  }

  /** Along a path of two or more nodes the position strictly grows. */
  lemma {:induction false} PathClimbs(order: seq<string>, edges: Edges, p: seq<string>) returns (i: nat, j: nat)
    requires Distinct(order) && Forward(order, edges)
    requires IsPath(edges, p) && |p| >= 2
    ensures i < j < |order| && order[i] == p[0] && order[j] == p[|p| - 1]
    decreases |p|
  {
    assert (p[0], p[1]) in edges;
    var a, b :| 0 <= a < b < |order| && order[a] == p[0] && order[b] == p[1];
    i := a;
    if |p| == 2 {
      j := b;
    } else {
      var tail := p[1..];
      assert IsPath(edges, tail);
      var i', j' := PathClimbs(order, edges, tail);
      assert i' == b;
      j := j';
    }
  }

  /** An order in which every edge goes forward excludes cycles. */
  lemma ForwardMeansAcyclic(order: seq<string>, edges: Edges)
    requires Distinct(order) && Forward(order, edges)
    ensures Acyclic(edges)
  {
    forall a ensures !Precedes(edges, a, a) {
      if Precedes(edges, a, a) {
        var p :| PathFromTo(edges, p, a, a) && |p| >= 2;
        var i, j := PathClimbs(order, edges, p);
        assert false;
      }
    }
  }

  ghost predicate HasPredecessorIn(stuck: set<string>, edges: Edges, v: string) {
    exists u :: u in stuck && (u, v) in edges
  }

  /** When every member of `stuck` has a predecessor in `stuck`, one can walk backwards forever. */
  lemma {:induction false} BackwardWalk(stuck: set<string>, edges: Edges, n: nat) returns (p: seq<string>)
    requires stuck != {}
    requires forall v :: v in stuck ==> HasPredecessorIn(stuck, edges, v)
    ensures |p| == n + 1 && IsPath(edges, p)
    ensures forall i :: 0 <= i < |p| ==> p[i] in stuck
  {
    if n == 0 {
      var v :| v in stuck;
      p := [v];
    } else {
      var q := BackwardWalk(stuck, edges, n - 1);
      assert HasPredecessorIn(stuck, edges, q[0]);
      var u :| u in stuck && (u, q[0]) in edges;
      p := [u] + q;
    }
  }

  /** A set in which everything has a predecessor contains a cycle: this is why a topological sort
      of an acyclic relation never gets stuck. */
  lemma StuckMeansCyclic(stuck: set<string>, edges: Edges)
    requires stuck != {}
    requires forall v :: v in stuck ==> HasPredecessorIn(stuck, edges, v)
    ensures !Acyclic(edges)
  {
    var p := BackwardWalk(stuck, edges, |stuck|);
    if Distinct(p) {
      DistinctFits(p, stuck);
      assert false;
    }
    var i, j :| 0 <= i < j < |p| && p[i] == p[j];
    assert PathFromTo(edges, p[i..j + 1], p[i], p[i]);
    assert Precedes(edges, p[i], p[i]);
  }
}
