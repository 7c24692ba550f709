/** The condensed type graph: which components are reachable from the roots, and
    the longest chain of components below a root, found by Kahn's algorithm. */
module Condensation {
  import opened Digraph
  import opened FinishOrder

  /** Successor sets of the components; numbers only grow along an edge. */
  type Dag = seq<set<nat>>

  predicate Forward(a: Dag) {
    forall c, d :: 0 <= c < |a| && d in a[c] ==> c < d < |a|
  }

  ghost predicate Chain(a: Dag, p: seq<nat>) {
    && |p| > 0
    && p[0] < |a|
    && forall i :: 0 <= i < |p| - 1 ==> p[i] < |a| && p[i + 1] in a[p[i]]
  }

  ghost predicate RootChain(a: Dag, roots: set<nat>, p: seq<nat>) {
    Chain(a, p) && p[0] in roots
  }

  ghost predicate ChainTo(a: Dag, roots: set<nat>, c: nat, n: nat) {
    exists p :: RootChain(a, roots, p) && p[|p| - 1] == c && |p| == n
  }

  ghost predicate Below(a: Dag, roots: set<nat>, c: nat) {
    exists n: nat :: ChainTo(a, roots, c, n)
  }

  /** m is the number of components on a longest chain that starts at a root; 0 when there is no root. */
  ghost predicate LongestChain(a: Dag, roots: set<nat>, m: nat) {
    && (forall p :: RootChain(a, roots, p) ==> |p| <= m)
    && (m > 0 ==> exists p :: RootChain(a, roots, p) && |p| == m)
  }

  lemma ChainToSelf(a: Dag, roots: set<nat>, c: nat)
    requires c in roots && c < |a|
    ensures ChainTo(a, roots, c, 1)
  {
    assert RootChain(a, roots, [c]);
  }

  lemma ChainToNext(a: Dag, roots: set<nat>, c: nat, d: nat, n: nat)
    requires ChainTo(a, roots, c, n) && c < |a| && d in a[c]
    ensures ChainTo(a, roots, d, n + 1)
  {
    var p :| RootChain(a, roots, p) && p[|p| - 1] == c && |p| == n;
    var q := p + [d];
    assert RootChain(a, roots, q) && q[|q| - 1] == d;
  }

  function Elements(s: seq<nat>): set<nat> {
    set x | x in s
  }

  /** A map ranged over in some order: every element exactly once. */
  method Enumerate(s: set<nat>) returns (q: seq<nat>)
    ensures Distinct(q)
    ensures forall x :: x in q <==> x in s
  {
    q := [];
    var rest := s;
    while rest != {}
      invariant Distinct(q)
      invariant forall x :: x in q <==> x in s && x !in rest
      invariant rest <= s
    {
      var x :| x in rest;
      q := q + [x];
      rest := rest - {x};
    }
  }

  // ---- the condensed edges ----

  method Condense(g: Graph, comp: seq<int>, k: nat) returns (a: Dag)
    requires Closed(g) && |comp| == |g| && forall x :: 0 <= x < |g| ==> 0 <= comp[x] < k
    ensures |a| == k
    ensures forall c, d :: 0 <= c < k ==> (d in a[c] <==> Joined(g, comp, c, d))
  {
    a := seq(k, i => {});
    for from := 0 to |g|
      invariant |a| == k
      invariant forall c, d :: 0 <= c < k ==> (d in a[c] <==> JoinedBy(g, comp, c, d, from, 0))
    {
      for j := 0 to |g[from]|
        invariant |a| == k
        invariant forall c, d :: 0 <= c < k ==> (d in a[c] <==> JoinedBy(g, comp, c, d, from, j))
      {
        var fromC, toC := comp[from], comp[g[from][j]];
        if fromC != toC {
          a := a[fromC := a[fromC] + {toC}];
          forall c, d | 0 <= c < k
            ensures d in a[c] <==> JoinedBy(g, comp, c, d, from, j + 1)
          {
            if c == fromC && d == toC {
              assert comp[from] == c && comp[g[from][j]] == d;
            }
          }
        }
      }
    }
    forall c, d | 0 <= c < k
      ensures d in a[c] <==> Joined(g, comp, c, d)
    {
      if Joined(g, comp, c, d) {
        var u: nat, v: nat :| Edge(g, u, v) && v < |g| && comp[u] == c && comp[v] == d && c != d;
        var i :| 0 <= i < |g[u]| && g[u][i] == v;
      }
    }
  }

  /** Some edge leads from component c to the different component d. */
  ghost predicate Joined(g: Graph, comp: seq<int>, c: int, d: int)
    requires |comp| == |g|
  {
    exists u: nat, v: nat :: Edge(g, u, v) && v < |g| && comp[u] == c && comp[v] == d && c != d
  }

  ghost predicate JoinedBy(g: Graph, comp: seq<int>, c: int, d: int, from: nat, j: nat)
    requires Closed(g) && |comp| == |g|
  {
    c != d && exists u, i :: 0 <= u < |g| && 0 <= i < |g[u]| && (u < from || (u == from && i < j)) && comp[u] == c && comp[g[u][i]] == d
  }

  // ---- reachability ----

  ghost predicate InRange(a: Dag, r: set<nat>) {
    forall c :: c in r ==> c < |a|
  }

  method ReachableFrom(a: Dag, rootList: seq<nat>) returns (r: set<nat>)
    requires Forward(a) && InRange(a, Elements(rootList))
    ensures InRange(a, r)
    ensures forall c :: c in r <==> Below(a, Elements(rootList), c)
  {
    hide Below, ChainTo;
    ghost var roots := Elements(rootList);
    forall i | 0 <= i < |rootList|
      ensures rootList[i] < |a| && Below(a, roots, rootList[i])
    {
      assert rootList[i] in roots;
      BelowRoot(a, roots, rootList[i]);
    }
    r := {};
    var stack: seq<nat> := rootList;
    ghost var left := Range(|a|);
    while |stack| > 0
      invariant InRange(a, r) && forall i :: 0 <= i < |stack| ==> stack[i] < |a|
      invariant forall c :: c in r ==> Below(a, roots, c)
      invariant forall i :: 0 <= i < |stack| ==> Below(a, roots, stack[i])
      invariant forall c :: c in roots ==> c in r || c in stack
      invariant forall c, d :: c in r && d in a[c] ==> d in r || d in stack
      invariant left == Range(|a|) - r
      decreases left, |stack|
    {
      var c: nat := stack[|stack| - 1];
      assert stack == stack[..|stack| - 1] + [c];
      stack := stack[..|stack| - 1];
      if c !in r {
        var targets := Enumerate(a[c]);
        forall i | 0 <= i < |targets|
          ensures targets[i] < |a| && Below(a, roots, targets[i])
        {
          assert targets[i] in targets;
          BelowNext(a, roots, c, targets[i]);
        }
        r := r + {c};
        stack := stack + targets;
        left := left - {c};
      }
    }
    forall c | Below(a, roots, c)
      ensures c in r
    {
      BelowInside(a, roots, r, c);
    }
  }

  function Range(n: nat): (s: set<nat>)
    ensures forall x: nat :: x in s <==> x < n
  {
    if n == 0 then {} else Range(n - 1) + {n - 1}
  }

  lemma BelowRoot(a: Dag, roots: set<nat>, c: nat)
    requires c in roots && c < |a|
    ensures Below(a, roots, c)
  {
    ChainToSelf(a, roots, c);
  }

  lemma BelowNext(a: Dag, roots: set<nat>, c: nat, d: nat)
    requires Below(a, roots, c) && c < |a| && d in a[c]
    ensures Below(a, roots, d)
  {
    var n: nat :| ChainTo(a, roots, c, n);
    ChainToNext(a, roots, c, d, n);
  }

  lemma BelowInside(a: Dag, roots: set<nat>, r: set<nat>, c: nat)
    requires roots <= r && InRange(a, r)
    requires forall c, d :: c in r && d in a[c] ==> d in r
    requires Below(a, roots, c)
    ensures c in r
  {
    var n: nat :| ChainTo(a, roots, c, n);
    var p :| RootChain(a, roots, p) && p[|p| - 1] == c && |p| == n;
    for i := 1 to |p|
      invariant p[i - 1] in r
    {
      assert p[i - 1 + 1] in a[p[i - 1]];
    }
  }

  /** Each reachable component is a root or has a reachable predecessor. */
  lemma BelowSupported(a: Dag, roots: set<nat>, c: nat)
    requires Below(a, roots, c) && c !in roots
    ensures exists p: nat :: Below(a, roots, p) && p < |a| && c in a[p]
  {
    var n: nat :| ChainTo(a, roots, c, n);
    var p :| RootChain(a, roots, p) && p[|p| - 1] == c && |p| == n;
    assert n > 1;
    var q := p[..n - 1];
    assert RootChain(a, roots, q) && q[|q| - 1] == p[n - 2];
    assert ChainTo(a, roots, p[n - 2], n - 1);
    assert p[n - 2 + 1] in a[p[n - 2]];
  }

  // ---- Kahn ----

  ghost function Preds(a: Dag, r: set<nat>, c: nat): (s: set<nat>)
    requires InRange(a, r)
  {
    set p | p in r && c in a[p]
  }

  ghost predicate KahnSetup(a: Dag, roots: set<nat>, r: set<nat>) {
    && Forward(a)
    && InRange(a, r)
    && roots <= r
    && (forall c, d :: c in r && d in a[c] ==> d in r)
    && (forall c :: c in r && c !in roots ==> Preds(a, r, c) != {})
  }

  lemma SetUp(a: Dag, roots: set<nat>, r: set<nat>)
    requires Forward(a) && InRange(a, roots) && InRange(a, r)
    requires forall c :: c in r <==> Below(a, roots, c)
    ensures KahnSetup(a, roots, r)
  {
    hide Below, ChainTo;
    forall c | c in roots
      ensures c in r
    {
      BelowRoot(a, roots, c);
    }
    forall c, d | c in r && d in a[c]
      ensures d in r
    {
      BelowNext(a, roots, c, d);
    }
    forall c | c in r && c !in roots
      ensures Preds(a, r, c) != {}
    {
      BelowSupported(a, roots, c);
      var p: nat :| Below(a, roots, p) && p < |a| && c in a[p];
      assert p in Preds(a, r, c);
    }
  }

  method CountIndegrees(a: Dag, r: set<nat>) returns (indeg: seq<nat>)
    requires Forward(a) && InRange(a, r)
    ensures |indeg| == |a|
    ensures forall c :: c in r ==> indeg[c] == |Preds(a, r, c)|
  {
    indeg := seq(|a|, i => 0);
    var sources := Enumerate(r);
    ghost var seen: set<nat> := {};
    for i := 0 to |sources|
      invariant |indeg| == |a| && seen <= r
      invariant seen == Elements(sources[..i])
      invariant forall c :: c in r ==> indeg[c] == |Preds(a, seen, c)|
    {
      var source := sources[i];
      assert source in r;
      assert source !in seen;
      assert sources[..i + 1] == sources[..i] + [source];
      ghost var indeg0 := indeg;
      indeg := Bump(a, r, indeg, source);
      forall c | c in r
        ensures indeg[c] == |Preds(a, seen + {source}, c)|
      {
        AddPred(a, seen, source, c);
      }
      seen := seen + {source};
    }
    assert sources[..|sources|] == sources;
    assert seen == r;
  }

  lemma AddPred(a: Dag, seen: set<nat>, source: nat, c: nat)
    requires InRange(a, seen) && source < |a| && source !in seen
    ensures |Preds(a, seen + {source}, c)| == |Preds(a, seen, c)| + if c in a[source] then 1 else 0
  {
    if c in a[source] {
      assert Preds(a, seen + {source}, c) == Preds(a, seen, c) + {source};
    } else {
      assert Preds(a, seen + {source}, c) == Preds(a, seen, c);
    }
  }

  method Bump(a: Dag, r: set<nat>, indeg0: seq<nat>, source: nat) returns (indeg: seq<nat>)
    requires Forward(a) && |indeg0| == |a| && source < |a|
    ensures |indeg| == |a|
    ensures forall c :: 0 <= c < |a| ==> indeg[c] == indeg0[c] + if c in r && c in a[source] then 1 else 0
  {
    indeg := indeg0;
    var targets := Enumerate(a[source]);
    for k := 0 to |targets|
      invariant |indeg| == |a|
      invariant forall c :: 0 <= c < |a| ==> indeg[c] == indeg0[c] + if c in r && c in targets[..k] then 1 else 0
    {
      var target := targets[k];
      assert target in targets;
      assert targets[..k + 1] == targets[..k] + [target];
      assert target !in targets[..k];
      if target in r {
        indeg := indeg[target := indeg[target] + 1];
      }
    }
    assert targets[..|targets|] == targets;
  }

  ghost predicate Raised(a: Dag, r: set<nat>, source: nat, depth0: seq<nat>, depth: seq<nat>)
    requires |depth0| == |depth| == |a| && source < |a|
  {
    forall c :: 0 <= c < |a| ==>
      depth[c] == if c in r && c in a[source] && depth0[c] < depth0[source] + 1 then depth0[source] + 1 else depth0[c]
  }

  ghost predicate Lowered(a: Dag, r: set<nat>, source: nat, indeg0: seq<nat>, indeg: seq<nat>, queue0: seq<nat>, queue: seq<nat>)
    requires |indeg0| == |indeg| == |a| && source < |a|
  {
    && (forall c :: 0 <= c < |a| ==> indeg[c] + (if c in r && c in a[source] then 1 else 0) == indeg0[c])
    && queue0 <= queue && Distinct(queue)
    && (forall c :: 0 <= c < |a| ==> (c in queue <==> c in queue0 || (c in r && c in a[source] && indeg0[c] == 1)))
    && (forall c :: c in queue ==> c in queue0 || c < |a|)
  }

  /** Raise the targets' depths, count one predecessor less, queue the ones that have none left. */
  method Relax(a: Dag, r: set<nat>, source: nat, depth0: seq<nat>, indeg0: seq<nat>, queue0: seq<nat>)
    returns (depth: seq<nat>, indeg: seq<nat>, queue: seq<nat>)
    requires Forward(a) && |depth0| == |indeg0| == |a| && source < |a|
    requires forall c :: c in r && c in a[source] ==> indeg0[c] > 0 && c !in queue0
    requires Distinct(queue0)
    ensures |depth| == |indeg| == |a|
    ensures Raised(a, r, source, depth0, depth)
    ensures Lowered(a, r, source, indeg0, indeg, queue0, queue)
  {
    depth, indeg, queue := depth0, indeg0, queue0;
    var targets := Enumerate(a[source]);
    assert source !in targets;
    for k := 0 to |targets|
      invariant |depth| == |indeg| == |a|
      invariant forall c :: 0 <= c < |a| ==>
        depth[c] == if c in r && c in targets[..k] && depth0[c] < depth0[source] + 1 then depth0[source] + 1 else depth0[c]
      invariant forall c :: 0 <= c < |a| ==> indeg[c] == indeg0[c] - if c in r && c in targets[..k] then 1 else 0
      invariant queue0 <= queue && Distinct(queue)
      invariant forall c :: 0 <= c < |a| ==> (c in queue <==> c in queue0 || (c in r && c in targets[..k] && indeg0[c] == 1))
      invariant forall c :: c in queue ==> c in queue0 || c < |a|
    {
      var target := targets[k];
      assert target in targets;
      assert targets[..k + 1] == targets[..k] + [target];
      assert target !in targets[..k];
      assert source !in targets[..k] by {
        assert forall x :: x in targets[..k] ==> x in targets;
      }
      if target in r {
        if depth[target] < depth[source] + 1 {
          depth := depth[target := depth[source] + 1];
        }
        indeg := indeg[target := indeg[target] - 1];
        if indeg[target] == 0 {
          queue := queue + [target];
        }
      }
    }
    assert targets[..|targets|] == targets;
  }

  /** How many reachable predecessors of c are still to be processed. */
  ghost function Remaining(a: Dag, r: set<nat>, done: set<nat>, c: nat): nat
    requires InRange(a, r)
  {
    |Preds(a, r, c) - done|
  }

  lemma NothingRemaining(a: Dag, r: set<nat>, done: set<nat>, c: nat)
    requires InRange(a, r)
    ensures Remaining(a, r, done, c) == 0 <==> Preds(a, r, c) <= done
  {
    var left := Preds(a, r, c) - done;
    if left == {} {
      assert forall p :: p in Preds(a, r, c) && p !in done ==> p in left;
    }
  }

  lemma OneLessRemaining(a: Dag, r: set<nat>, done: set<nat>, source: nat, c: nat)
    requires InRange(a, r) && source in r && source !in done
    ensures Remaining(a, r, done + {source}, c) + (if c in a[source] then 1 else 0) == Remaining(a, r, done, c)
  {
    var before, after := Preds(a, r, c) - done, Preds(a, r, c) - (done + {source});
    if c in a[source] {
      assert source in before;
      assert after == before - {source};
    } else {
      assert after == before;
    }
  }

  ghost predicate QueueInv(a: Dag, r: set<nat>, done: set<nat>, indeg: seq<nat>, queue: seq<nat>) {
    && InRange(a, r)
    && |indeg| == |a|
    && Distinct(queue)
    && (forall c :: c in done ==> c in queue)
    && (forall c :: c in queue ==> c in r)
    && (forall c :: c in r ==> indeg[c] == Remaining(a, r, done, c))
    && (forall c :: c in r ==> (c in queue <==> indeg[c] == 0))
  }

  ghost predicate DepthInv(a: Dag, roots: set<nat>, done: set<nat>, depth: seq<nat>, m: nat) {
    && |depth| == |a|
    && InRange(a, roots) && InRange(a, done)
    && (forall c :: c in roots ==> depth[c] >= 1)
    && (forall c :: 0 <= c < |a| && depth[c] > 0 ==> ChainTo(a, roots, c, depth[c]))
    && (forall s, t :: s in done && t in a[s] && t < |a| ==> depth[t] >= depth[s] + 1)
    && (forall s :: s in done ==> 1 <= depth[s] <= m)
    && (m > 0 ==> exists s :: s in done && depth[s] == m)
  }

  lemma QueuedPredsDone(a: Dag, r: set<nat>, done: set<nat>, indeg: seq<nat>, queue: seq<nat>, c: nat)
    requires QueueInv(a, r, done, indeg, queue) && c in r
    ensures c in queue <==> Preds(a, r, c) <= done
  {
    hide Remaining;
    NothingRemaining(a, r, done, c);
  }

  lemma SourceHasDepth(a: Dag, roots: set<nat>, r: set<nat>, done: set<nat>, depth: seq<nat>, indeg: seq<nat>, queue: seq<nat>, m: nat, source: nat)
    requires KahnSetup(a, roots, r) && QueueInv(a, r, done, indeg, queue) && DepthInv(a, roots, done, depth, m)
    requires source in queue
    ensures depth[source] > 0
  {
    hide ChainTo, Remaining;
    QueuedPredsDone(a, r, done, indeg, queue, source);
    if source !in roots {
      var p :| p in Preds(a, r, source);
      assert p in done && source in a[p];
    }
  }

  lemma QueueKept(a: Dag, r: set<nat>, done: set<nat>, source: nat, indeg0: seq<nat>, queue0: seq<nat>, indeg: seq<nat>, queue: seq<nat>)
    requires QueueInv(a, r, done, indeg0, queue0) && source in queue0 && source !in done
    requires |indeg| == |a| && Lowered(a, r, source, indeg0, indeg, queue0, queue)
    ensures QueueInv(a, r, done + {source}, indeg, queue)
  {
    hide Remaining;
    assert source in r;
    forall c | c in r
      ensures indeg[c] == Remaining(a, r, done + {source}, c)
    {
      OneLessRemaining(a, r, done, source, c);
    }
  }

  lemma DepthKept(a: Dag, roots: set<nat>, r: set<nat>, done: set<nat>, source: nat, depth0: seq<nat>, indeg0: seq<nat>, queue0: seq<nat>, m0: nat, depth: seq<nat>)
    requires KahnSetup(a, roots, r) && QueueInv(a, r, done, indeg0, queue0) && DepthInv(a, roots, done, depth0, m0)
    requires source in queue0 && source !in done
    requires |depth| == |a| && source < |a| && Raised(a, r, source, depth0, depth)
    ensures DepthInv(a, roots, done + {source}, depth, if depth0[source] > m0 then depth0[source] else m0)
  {
    hide ChainTo, Remaining;
    var done' := done + {source};
    SourceHasDepth(a, roots, r, done, depth0, indeg0, queue0, m0, source);
    forall c | 0 <= c < |a| && depth[c] > 0
      ensures ChainTo(a, roots, c, depth[c])
    {
      if depth[c] != depth0[c] {
        ChainToNext(a, roots, source, c, depth0[source]);
      }
    }
    forall s | s in done'
      ensures depth[s] == depth0[s]
    {
      // everything queued has all its predecessors processed, so source is not one of them
      QueuedPredsDone(a, r, done, indeg0, queue0, s);
      assert source !in Preds(a, r, s);
    }
    if m0 > 0 {
      var s :| s in done && depth0[s] == m0;
      assert depth[s] == m0;
    }
  }

  /** When the queue is used up every reachable component has been processed. */
  lemma {:induction false} AllProcessed(a: Dag, roots: set<nat>, r: set<nat>, indeg: seq<nat>, queue: seq<nat>, c: nat)
    requires KahnSetup(a, roots, r) && QueueInv(a, r, Elements(queue), indeg, queue)
    requires c in r
    ensures c in queue
    decreases c
  {
    hide Remaining;
    forall p | p in Preds(a, r, c)
      ensures p in queue
    {
      AllProcessed(a, roots, r, indeg, queue, p);
    }
    QueuedPredsDone(a, r, Elements(queue), indeg, queue, c);
  }

  lemma {:induction false} ChainBounded(a: Dag, roots: set<nat>, r: set<nat>, depth: seq<nat>, m: nat, p: seq<nat>)
    requires KahnSetup(a, roots, r) && DepthInv(a, roots, r, depth, m)
    requires RootChain(a, roots, p)
    ensures p[|p| - 1] in r && |p| <= depth[p[|p| - 1]]
  {
    hide ChainTo;
    if |p| > 1 {
      var q := p[..|p| - 1];
      assert RootChain(a, roots, q);
      ChainBounded(a, roots, r, depth, m, q);
      assert q[|q| - 1] == p[|p| - 2];
      assert p[|p| - 2 + 1] in a[p[|p| - 2]];
    }
  }

  lemma LongestWhenDone(a: Dag, roots: set<nat>, r: set<nat>, depth: seq<nat>, m: nat)
    requires KahnSetup(a, roots, r) && DepthInv(a, roots, r, depth, m)
    ensures LongestChain(a, roots, m)
  {
    forall p | RootChain(a, roots, p)
      ensures |p| <= m
    {
      ChainBounded(a, roots, r, depth, m, p);
    }
    if m > 0 {
      var s :| s in r && depth[s] == m;
      assert ChainTo(a, roots, s, m);
      var p :| RootChain(a, roots, p) && p[|p| - 1] == s && |p| == m;
    }
  }

  lemma Startable(a: Dag, r: set<nat>, done: set<nat>, indeg: seq<nat>, queue: seq<nat>, cursor: nat)
    requires Forward(a) && QueueInv(a, r, done, indeg, queue)
    requires cursor < |queue| && done == Elements(queue[..cursor])
    ensures queue[cursor] in queue && queue[cursor] in r && queue[cursor] !in done && queue[cursor] < |a|
    ensures |indeg| == |a| && Distinct(queue)
    ensures forall c :: c in r && c in a[queue[cursor]] ==> indeg[c] > 0 && c !in queue
  {
    hide Remaining;
    var source := queue[cursor];
    assert source in queue;
    assert source !in queue[..cursor];
    forall c | c in r && c in a[source]
      ensures indeg[c] > 0 && c !in queue
    {
      assert source in Preds(a, r, c);
      QueuedPredsDone(a, r, done, indeg, queue, c);
    }
  }

  method StartDepths(a: Dag, rootList: seq<nat>) returns (depth: seq<nat>)
    requires InRange(a, Elements(rootList))
    ensures DepthInv(a, Elements(rootList), {}, depth, 0)
  {
    depth := seq(|a|, i => 0);
    for i := 0 to |rootList|
      invariant |depth| == |a|
      invariant forall c :: 0 <= c < |a| ==> depth[c] == if c in rootList[..i] then 1 else 0
    {
      assert rootList[..i + 1] == rootList[..i] + [rootList[i]];
      assert rootList[i] in Elements(rootList);
      if depth[rootList[i]] < 1 {
        depth := depth[rootList[i] := 1];
      }
    }
    assert rootList[..|rootList|] == rootList;
    forall c | 0 <= c < |a| && depth[c] > 0
      ensures ChainTo(a, Elements(rootList), c, depth[c])
    {
      ChainToSelf(a, Elements(rootList), c);
    }
  }

  method StartQueue(a: Dag, r: set<nat>, indeg: seq<nat>) returns (queue: seq<nat>)
    requires InRange(a, r) && |indeg| == |a| && forall c :: c in r ==> indeg[c] == |Preds(a, r, c)|
    ensures QueueInv(a, r, {}, indeg, queue)
  {
    queue := Enumerate(set c | c in r && indeg[c] == 0);
    forall c | c in r
      ensures indeg[c] == Remaining(a, r, {}, c)
    {
      assert Preds(a, r, c) - {} == Preds(a, r, c);
    }
  }

  lemma QueueIsReachable(a: Dag, roots: set<nat>, r: set<nat>, indeg: seq<nat>, queue: seq<nat>)
    requires KahnSetup(a, roots, r) && QueueInv(a, r, Elements(queue), indeg, queue)
    ensures Distinct(queue) && Elements(queue) == r
  {
    hide Remaining;
    forall c | c in r
      ensures c in queue
    {
      AllProcessed(a, roots, r, indeg, queue, c);
    }
  }

  lemma SetupFacts(a: Dag, roots: set<nat>, r: set<nat>)
    requires KahnSetup(a, roots, r)
    ensures Forward(a) && InRange(a, r) && InRange(a, roots)
  {
  }

  lemma QueueGrows(a: Dag, r: set<nat>, source: nat, indeg0: seq<nat>, indeg: seq<nat>, queue0: seq<nat>, queue: seq<nat>, cursor: nat)
    requires |indeg0| == |indeg| == |a| && source < |a| && Lowered(a, r, source, indeg0, indeg, queue0, queue)
    requires cursor < |queue0| && queue0[cursor] == source
    ensures cursor < |queue| && queue[..cursor + 1] == queue0[..cursor] + [source] && queue0 <= queue
    ensures Elements(queue[..cursor + 1]) == Elements(queue0[..cursor]) + {source}
  {
    assert queue[..cursor + 1] == queue0[..cursor + 1];
  }

  /** Every edge between reachable components leads from an earlier to a later place. */
  ghost predicate Topological(a: Dag, r: set<nat>, order: seq<nat>)
    requires InRange(a, r)
  {
    forall j, p :: 0 <= j < |order| && p in r && order[j] in a[p] ==> p in order[..j]
  }

  /** What is queued by the step at cursor has all its predecessors up to cursor. */
  lemma StaysTopological(a: Dag, r: set<nat>, indeg: seq<nat>, queue0: seq<nat>, queue: seq<nat>, cursor: nat)
    requires InRange(a, r) && Topological(a, r, queue0) && queue0 <= queue && cursor < |queue0|
    requires QueueInv(a, r, Elements(queue[..cursor + 1]), indeg, queue)
    ensures Topological(a, r, queue)
  {
    hide QueueInv;
    forall j, p | 0 <= j < |queue| && p in r && queue[j] in a[p]
      ensures p in queue[..j]
    {
      if j < |queue0| {
        assert queue[..j] == queue0[..j] && queue[j] == queue0[j];
      } else {
        Inside(a, r, Elements(queue[..cursor + 1]), indeg, queue, j);
        QueuedPredsDone(a, r, Elements(queue[..cursor + 1]), indeg, queue, queue[j]);
        assert p in Preds(a, r, queue[j]);
        assert p in queue[..cursor + 1];
        assert queue[..cursor + 1] <= queue[..j];
      }
    }
  }

  lemma Inside(a: Dag, r: set<nat>, done: set<nat>, indeg: seq<nat>, queue: seq<nat>, j: nat)
    requires QueueInv(a, r, done, indeg, queue) && j < |queue|
    ensures queue[j] in r && queue[j] in queue
  {
  }

  lemma StartsTopological(a: Dag, r: set<nat>, indeg: seq<nat>, queue: seq<nat>)
    requires InRange(a, r) && QueueInv(a, r, {}, indeg, queue)
    ensures Topological(a, r, queue)
  {
    hide QueueInv;
    forall j, p | 0 <= j < |queue| && p in r
      ensures queue[j] !in a[p]
    {
      assert queue[j] in a[p] ==> p in Preds(a, r, queue[j]);
      Inside(a, r, {}, indeg, queue, j);
      QueuedPredsDone(a, r, {}, indeg, queue, queue[j]);
    }
  }

  /** Kahn's loop over the reachable components: it takes each of them exactly once, in a topological order. */
  method LongestPath(a: Dag, rootList: seq<nat>, r: set<nat>) returns (m: nat, order: seq<nat>)
    requires KahnSetup(a, Elements(rootList), r)
    ensures LongestChain(a, Elements(rootList), m)
    ensures Distinct(order) && Elements(order) == r && Topological(a, r, order)
  {
    hide QueueInv, DepthInv, LongestChain, KahnSetup, Raised, Lowered, Remaining, ChainTo, Elements, Preds, Topological;
    ghost var roots := Elements(rootList);
    SetupFacts(a, roots, r);
    var indeg: seq<nat> := CountIndegrees(a, r);
    var queue: seq<nat> := StartQueue(a, r, indeg);
    var depth: seq<nat> := StartDepths(a, rootList);
    m := 0;
    var cursor := 0;
    ghost var done: set<nat> := {};
    DepthLength(a, roots, done, depth, m);
    NoElements();
    assert queue[..0] == [];
    StartsTopological(a, r, indeg, queue);
    while cursor < |queue|
      invariant Topological(a, r, queue)
      invariant 0 <= cursor <= |queue| && done == Elements(queue[..cursor]) && done <= r
      invariant QueueInv(a, r, done, indeg, queue)
      invariant DepthInv(a, roots, done, depth, m)
      invariant |depth| == |a|
      decreases r - done
    {
      ghost var depth0, indeg0, queue0, m0 := depth, indeg, queue, m;
      var source := queue[cursor];
      Startable(a, r, done, indeg, queue, cursor);
      if depth[source] == 0 {
        depth := depth[source := 1];
      }
      if depth[source] > m {
        m := depth[source];
      }
      assert depth == depth0 by {
        SourceHasDepth(a, roots, r, done, depth0, indeg0, queue0, m0, source);
      }
      depth, indeg, queue := Relax(a, r, source, depth, indeg, queue);
      QueueKept(a, r, done, source, indeg0, queue0, indeg, queue);
      DepthKept(a, roots, r, done, source, depth0, indeg0, queue0, m0, depth);
      QueueGrows(a, r, source, indeg0, indeg, queue0, queue, cursor);
      StaysTopological(a, r, indeg, queue0, queue, cursor);
      cursor := cursor + 1;
      done := done + {source};
    }
    assert queue[..|queue|] == queue;
    QueueIsReachable(a, roots, r, indeg, queue);
    LongestWhenDone(a, roots, r, depth, m);
    order := queue;
  }

  lemma NoElements()
    ensures Elements([]) == {}
  {
  }

  lemma DepthLength(a: Dag, roots: set<nat>, done: set<nat>, depth: seq<nat>, m: nat)
    requires DepthInv(a, roots, done, depth, m)
    ensures |depth| == |a|
  {
  }
}
