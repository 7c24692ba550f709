/** graphComponents: strongly connected components of the type graph, which of
    them are cyclic, and the depth of the condensed graph below the roots. */
module TypeComponents {
  import opened Digraph
  import opened FinishOrder
  import opened Components
  import opened Condensation

  datatype Outcome<+T> = Ok(value: T) | Rejected(code: string)

  datatype Summary = Summary(comp: seq<int>, members: seq<seq<nat>>, cyclic: set<nat>, maximumDepth: nat)

  /** u is visited by a walk of at least one edge that returns to its start. */
  ghost predicate NodeOnCycle(g: Graph, u: nat) {
    exists c :: ClosedWalk(g, c) && c[0] == u
  }

  ghost predicate CyclicExactly(g: Graph, comp: seq<int>, k: nat, cyclic: set<nat>)
    requires |comp| == |g|
  {
    && (forall c :: c in cyclic ==> c < k)
    && forall c :: 0 <= c < k ==> (c in cyclic <==> exists u: nat :: u < |g| && comp[u] == c && NodeOnCycle(g, u))
  }

  lemma SelfLoopIsCycle(g: Graph, u: nat)
    requires Edge(g, u, u)
    ensures NodeOnCycle(g, u)
  {
    var c := [u, u];
    assert ClosedWalk(g, c) && c[0] == u;
  }

  lemma MutualPairIsCycle(g: Graph, u: nat, v: nat)
    requires Mutual(g, u, v) && u != v
    ensures NodeOnCycle(g, u)
  {
    var p :| PathFromTo(g, p, u, v);
    var q :| PathFromTo(g, q, v, u);
    PathConcat(g, p, q);
    var c := p + q[1..];
    assert |p| >= 2;
    assert ClosedWalk(g, c) && c[0] == u;
  }

  lemma CycleInSingletonIsLoop(g: Graph, u: nat)
    requires Closed(g) && NodeOnCycle(g, u)
    requires forall v: nat :: v < |g| && Mutual(g, u, v) ==> v == u
    ensures Edge(g, u, u)
  {
    var c :| ClosedWalk(g, c) && c[0] == u;
    assert Edge(g, c[0], c[0 + 1]);
    PathSlice(g, c, 0, 1);
    PathSlice(g, c, 1, |c| - 1);
    PathInRange(g, c, 1);
    assert Mutual(g, u, c[1]);
  }

  /** One component is cyclic exactly when it has two members or its only member has a self-loop. */
  lemma ComponentCyclic(g: Graph, comp: seq<int>, lists: seq<seq<nat>>, c: nat)
    requires Closed(g) && PartitionInv(g, comp, lists) && c < |lists|
    requires forall x :: 0 <= x < |g| ==> 0 <= comp[x]
    ensures |lists[c]| > 1 || Edge(g, lists[c][0], lists[c][0])
            <==> exists u: nat :: u < |g| && comp[u] == c && NodeOnCycle(g, u)
  {
    hide NodeOnCycle, Mutual;
    var u := lists[c][0];
    assert u in lists[c];
    if |lists[c]| > 1 {
      var v := lists[c][1];
      assert v in lists[c] && u != v;
      assert comp[u] == c && comp[v] == c;
      assert Mutual(g, u, v);
      MutualPairIsCycle(g, u, v);
    } else {
      assert forall x :: x in lists[c] ==> x == u;
      if Edge(g, u, u) {
        SelfLoopIsCycle(g, u);
      }
      if w: nat :| w < |g| && comp[w] == c && NodeOnCycle(g, w) {
        assert w in lists[c];
        forall v: nat | v < |g| && Mutual(g, u, v)
          ensures v == u
        {
          assert v in lists[c];
        }
        CycleInSingletonIsLoop(g, u);
      }
    }
  }

  method FindCyclic(g: Graph, comp: seq<int>, lists: seq<seq<nat>>) returns (cyclic: set<nat>)
    requires Closed(g) && PartitionInv(g, comp, lists)
    requires forall x :: 0 <= x < |g| ==> 0 <= comp[x]
    ensures CyclicExactly(g, comp, |lists|, cyclic)
  {
    hide NodeOnCycle, PredecessorClosed, SameComponentIffMutual;
    cyclic := {};
    for c := 0 to |lists|
      invariant forall d :: d in cyclic ==> d < c
      invariant forall d :: 0 <= d < c ==> (d in cyclic <==> exists u: nat :: u < |g| && comp[u] == d && NodeOnCycle(g, u))
    {
      var members := lists[c];
      assert members[0] in lists[c];
      assert members[0] < |g|;
      ComponentCyclic(g, comp, lists, c);
      if |members| > 1 {
        cyclic := cyclic + {c};
      } else {
        ghost var before := cyclic;
        for k := 0 to |g[members[0]]|
          invariant cyclic == if members[0] in g[members[0]][..k] then before + {c} else before
        {
          if g[members[0]][k] == members[0] {
            cyclic := cyclic + {c};
          }
        }
        assert g[members[0]][..|g[members[0]]|] == g[members[0]];
      }
    }
  }

  /** a lists, for each component, the other components its members' edges lead to. */
  ghost predicate Condensed(g: Graph, comp: seq<int>, a: Dag)
    requires |comp| == |g|
  {
    forall c, d :: 0 <= c < |a| ==> (d in a[c] <==> Joined(g, comp, c, d))
  }

  lemma CondensedForward(g: Graph, comp: seq<int>, lists: seq<seq<nat>>, a: Dag)
    requires Closed(g) && PartitionInv(g, comp, lists) && |a| == |lists|
    requires forall x :: 0 <= x < |g| ==> 0 <= comp[x]
    requires Condensed(g, comp, a)
    ensures Forward(a)
  {
    forall c, d | 0 <= c < |a| && d in a[c]
      ensures c < d < |a|
    {
      assert Joined(g, comp, c, d);
      var u: nat, v: nat :| Edge(g, u, v) && v < |g| && comp[u] == c && comp[v] == d && c != d;
    }
  }

  /** The components at which the depth count starts: those of the roots, or all of them. */
  function RootComponents(comp: seq<int>, k: nat, roots: seq<nat>): seq<int>
    requires forall i :: 0 <= i < |roots| ==> roots[i] < |comp|
  {
    if roots == [] then seq(k, i => i) else seq(|roots|, i requires 0 <= i < |roots| => comp[roots[i]])
  }

  ghost predicate SummaryOf(g: Graph, s: Summary) {
    && |s.comp| == |g|
    && PartitionInv(g, s.comp, s.members)
    && (forall x :: 0 <= x < |g| ==> 0 <= s.comp[x] < |s.members|)
    && CyclicExactly(g, s.comp, |s.members|, s.cyclic)
  }

  ghost predicate DepthOf(g: Graph, roots: seq<nat>, comp: seq<int>, k: nat, a: Dag, m: nat)
    requires |comp| == |g|
  {
    && |a| == k
    && (forall x :: 0 <= x < |g| ==> 0 <= comp[x] < k)
    && (forall i :: 0 <= i < |roots| ==> roots[i] < |g|)
    && Condensed(g, comp, a)
    && Forward(a)
    && LongestChain(a, RootSet(comp, k, roots), m)
  }

  ghost function RootSet(comp: seq<int>, k: nat, roots: seq<nat>): set<nat>
    requires forall i :: 0 <= i < |roots| ==> roots[i] < |comp|
    requires forall x :: 0 <= x < |comp| ==> 0 <= comp[x] < k
  {
    set c | c in RootComponents(comp, k, roots)
  }

  method CondensedDepth(g: Graph, roots: seq<nat>, comp: seq<int>, lists: seq<seq<nat>>) returns (m: nat, a: Dag)
    requires Closed(g) && PartitionInv(g, comp, lists)
    requires forall x :: 0 <= x < |g| ==> 0 <= comp[x]
    requires forall i :: 0 <= i < |roots| ==> roots[i] < |g|
    ensures |comp| == |g| && DepthOf(g, roots, comp, |lists|, a, m)
  {
    hide PredecessorClosed, SameComponentIffMutual, LongestChain, Below, KahnSetup;
    var dag := Condense(g, comp, |lists|);
    CondensedForward(g, comp, lists, dag);
    var rootComponents: seq<nat> := RootComponents(comp, |lists|, roots);
    assert RootSet(comp, |lists|, roots) == Elements(rootComponents);
    var r := ReachableFrom(dag, rootComponents);
    SetUp(dag, Elements(rootComponents), r);
    var order;
    m, order := LongestPath(dag, rootComponents, r);
    a := dag;
  }

  /** The whole of graphComponents: s holds the strongly connected components, the cyclic ones among them and the
      depth of their condensation, and it is refused exactly when that depth is over maxDepth. */
  method GraphComponents(g: Graph, roots: seq<nat>, maxDepth: nat) returns (res: Outcome<Summary>, ghost s: Summary, ghost a: Dag)
    requires Closed(g) && forall i :: 0 <= i < |roots| ==> roots[i] < |g|
    ensures SummaryOf(g, s) && DepthOf(g, roots, s.comp, |s.members|, a, s.maximumDepth)
    ensures res == if s.maximumDepth > maxDepth then Rejected("DEPTH_LIMIT") else Ok(s)
  {
    hide Permutation, Bracketed, LongestChain;
    var finish := FinishOrder.Compute(g);
    var componentByNode, nodesByComponent := Partition(g, finish);
    var cyclic := FindCyclic(g, componentByNode, nodesByComponent);
    var maximumDepth, dag := CondensedDepth(g, roots, componentByNode, nodesByComponent);
    s, a := Summary(componentByNode, nodesByComponent, cyclic, maximumDepth), dag;
    if maximumDepth > maxDepth {
      return Rejected("DEPTH_LIMIT"), s, a;
    }
    res := Ok(Summary(componentByNode, nodesByComponent, cyclic, maximumDepth));
  }
}
