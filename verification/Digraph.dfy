/** Directed graphs on the nodes 0 .. |g|, given by adjacency lists, and the
    reachability facts that the type-graph normaliser relies on. */
module Digraph {

  type Graph = seq<seq<nat>>

  predicate Closed(g: Graph) {
    forall u, k :: 0 <= u < |g| && 0 <= k < |g[u]| ==> g[u][k] < |g|
  }

  predicate Edge(g: Graph, u: nat, v: nat) {
    u < |g| && v in g[u]
  }

  /** A path is a non-empty list of nodes joined by edges; one node alone is a path of no edges. */
  ghost predicate IsPath(g: Graph, p: seq<nat>) {
    && |p| > 0
    && p[0] < |g|
    && forall i :: 0 <= i < |p| - 1 ==> Edge(g, p[i], p[i + 1])
  }

  ghost predicate PathFromTo(g: Graph, p: seq<nat>, u: nat, v: nat) {
    IsPath(g, p) && p[0] == u && p[|p| - 1] == v
  }

  ghost predicate Reach(g: Graph, u: nat, v: nat) {
    exists p :: PathFromTo(g, p, u, v)
  }

  ghost predicate Mutual(g: Graph, u: nat, v: nat) {
    Reach(g, u, v) && Reach(g, v, u)
  }

  /** The edge u -> v is one of the steps of a closed walk. */
  ghost predicate OnCycle(g: Graph, u: nat, v: nat) {
    exists c, i :: ClosedWalk(g, c) && 0 <= i < |c| - 1 && c[i] == u && c[i + 1] == v
  }

  ghost predicate ClosedWalk(g: Graph, c: seq<nat>) {
    IsPath(g, c) && |c| >= 2 && c[0] == c[|c| - 1]
  }

  lemma ReachSelf(g: Graph, u: nat)
    requires u < |g|
    ensures Reach(g, u, u)
  {
    assert PathFromTo(g, [u], u, u);
  }

  lemma ReachEdge(g: Graph, u: nat, v: nat)
    requires Edge(g, u, v)
    ensures Reach(g, u, v)
  {
    assert PathFromTo(g, [u, v], u, v);
  }

  lemma PathConcat(g: Graph, p: seq<nat>, q: seq<nat>)
    requires IsPath(g, p) && IsPath(g, q) && p[|p| - 1] == q[0]
    ensures PathFromTo(g, p + q[1..], p[0], q[|q| - 1])
  {
    var r := p + q[1..];
    forall i | 0 <= i < |r| - 1
      ensures Edge(g, r[i], r[i + 1])
    {
      if i >= |p| - 1 {
        assert r[i] == q[i - |p| + 1];
        assert r[i + 1] == q[i - |p| + 2];
      }
    }
  }

  lemma ReachTrans(g: Graph, u: nat, v: nat, w: nat)
    requires Reach(g, u, v) && Reach(g, v, w)
    ensures Reach(g, u, w)
  {
    var p :| PathFromTo(g, p, u, v);
    var q :| PathFromTo(g, q, v, w);
    PathConcat(g, p, q);
  }

  lemma PathSlice(g: Graph, p: seq<nat>, i: nat, j: nat)
    requires Closed(g) && IsPath(g, p) && i <= j < |p|
    ensures IsPath(g, p[i..j + 1])
    ensures Reach(g, p[i], p[j])
  {
    PathInRange(g, p, i);
    var q := p[i..j + 1];
    forall k | 0 <= k < |q| - 1
      ensures Edge(g, q[k], q[k + 1])
    {
      assert q[k] == p[i + k] && q[k + 1] == p[i + k + 1];
    }
    assert PathFromTo(g, q, p[i], p[j]);
  }

  lemma PathInRange(g: Graph, p: seq<nat>, i: nat)
    requires Closed(g) && IsPath(g, p) && i < |p|
    ensures p[i] < |g|
  {
    if i > 0 {
      assert Edge(g, p[i - 1], p[i - 1 + 1]);
    }
  }

  lemma ReachInRange(g: Graph, u: nat, v: nat)
    requires Closed(g) && Reach(g, u, v)
    ensures u < |g| && v < |g|
  {
    var p :| PathFromTo(g, p, u, v);
    PathInRange(g, p, |p| - 1);
  }

  /** An edge lies on a cycle exactly when its head leads back to its tail. */
  lemma OnCycleIffReachBack(g: Graph, u: nat, v: nat)
    requires Closed(g)
    ensures OnCycle(g, u, v) <==> Edge(g, u, v) && Reach(g, v, u)
  {
    if OnCycle(g, u, v) {
      var c, i :| ClosedWalk(g, c) && 0 <= i < |c| - 1 && c[i] == u && c[i + 1] == v;
      PathSlice(g, c, i + 1, |c| - 1);
      PathSlice(g, c, 0, i);
      ReachTrans(g, v, c[0], u);
    }
    if Edge(g, u, v) && Reach(g, v, u) {
      var p :| PathFromTo(g, p, v, u);
      assert PathFromTo(g, [u, v], u, v);
      PathConcat(g, [u, v], p);
      var c := [u, v] + p[1..];
      assert ClosedWalk(g, c) && c[0] == u && c[0 + 1] == v;
    }
  }
}
