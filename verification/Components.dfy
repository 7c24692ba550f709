/** Second half of Kosaraju's algorithm: sweeping the finish order backwards over
    the reversed edges, and the proof that each sweep collects one strongly
    connected component. */
module Components {
  import opened Digraph
  import opened FinishOrder

  // ---- sorting of one component's members ----

  ghost predicate Ascending(s: seq<nat>) {
    forall i, j :: 0 <= i < j < |s| ==> s[i] < s[j]
  }

  function Insert(x: nat, s: seq<nat>): (r: seq<nat>)
    requires Ascending(s) && x !in s
    ensures Ascending(r)
    ensures forall y :: y in r <==> y == x || y in s
    ensures |r| == |s| + 1
  {
    if s == [] then [x]
    else if x < s[0] then [x] + s
    else
      assert s == [s[0]] + s[1..];
      var t := Insert(x, s[1..]);
      HeadBelow(s, x, t);
      [s[0]] + t
  }

  lemma HeadBelow(s: seq<nat>, x: nat, t: seq<nat>)
    requires s != [] && Ascending(s) && s[0] < x && forall y :: y in t <==> y == x || y in s[1..]
    ensures forall j :: 0 <= j < |t| ==> s[0] < t[j]
  {
    forall j | 0 <= j < |t| ensures s[0] < t[j] {
      if t[j] != x {
        assert t[j] in s[1..];
        var k :| 0 <= k < |s[1..]| && s[1..][k] == t[j];
        assert s[k + 1] == t[j];
      }
    }
  }

  function SortInts(s: seq<nat>): (r: seq<nat>)
    requires Distinct(s)
    ensures Ascending(r)
    ensures forall y :: y in r <==> y in s
    ensures |r| == |s|
  {
    if s == [] then []
    else
      assert s == [s[0]] + s[1..];
      Insert(s[0], SortInts(s[1..]))
  }

  // ---- the reversed edges ----

  method Reverse(g: Graph) returns (r: Graph)
    requires Closed(g)
    ensures |r| == |g|
    ensures forall u: nat, v: nat :: 0 <= v < |g| ==> (u in r[v] <==> Edge(g, u, v))
  {
    r := seq(|g|, i => []);
    for from := 0 to |g|
      invariant |r| == |g|
      invariant forall u: nat, v: nat :: 0 <= v < |g| ==> (u in r[v] <==> u < from && Edge(g, u, v))
    {
      ghost var r0 := r;
      for k := 0 to |g[from]|
        invariant |r| == |g|
        invariant forall u: nat, v: nat :: 0 <= v < |g| ==> (u in r[v] <==> u in r0[v] || (u == from && v in g[from][..k]))
      {
        var to := g[from][k];
        assert g[from][..k + 1] == g[from][..k] + [to];
        r := r[to := r[to] + [from]];
      }
      assert g[from][..|g[from]|] == g[from];
    }
  }

  // ---- why a backward sweep stays inside one component ----

  /** q gives, for each node of the path p, a position of it in the finish order, none beyond o. */
  ghost predicate Placed(finish: seq<nat>, p: seq<nat>, q: seq<nat>, o: nat) {
    && o < |finish|
    && |p| == |q|
    && forall k :: 0 <= k < |p| ==> 0 <= q[k] <= o && finish[q[k]] == p[k]
  }

  lemma Crossing(p: seq<nat>, q: seq<nat>, from: nat, level: nat) returns (j: nat)
    requires |p| == |q| && from < |q| && q[from] < level <= q[|q| - 1]
    ensures from <= j < |q| - 1 && q[j] < level <= q[j + 1]
  {
    j := from;
    while q[j + 1] < level
      invariant from <= j < |q| - 1 && q[j] < level
      decreases |q| - j
    {
      j := j + 1;
    }
  }

  /** A path that ends at the latest-finished node it visits lies wholly in that node's component. */
  lemma {:induction false} ReachedBack(g: Graph, finish: seq<nat>, p: seq<nat>, q: seq<nat>, o: nat, i: nat)
    requires Closed(g) && Bracketed(g, finish)
    requires IsPath(g, p) && Placed(finish, p, q, o) && q[|q| - 1] == o
    requires i < |p|
    ensures Reach(g, finish[o], p[i])
    decreases |p| - i
  {
    hide Reach;
    PathInRange(g, p, i);
    if q[i] == o {
      ReachSelf(g, p[i]);
    } else {
      assert Edge(g, p[i], p[i + 1]);
      if q[i + 1] >= q[i] {
        ReachedBack(g, finish, p, q, o, i + 1);
        if q[i] < q[i + 1] {
          assert Edge(g, finish[q[i]], finish[q[i + 1]]);
          ReachTrans(g, finish[o], p[i + 1], p[i]);
        }
      } else {
        var j := Crossing(p, q, i + 1, q[i]);
        assert Edge(g, p[j], p[j + 1]);
        assert Edge(g, finish[q[j]], finish[q[j + 1]]);
        ReachedBack(g, finish, p, q, o, j + 1);
        ReachTrans(g, finish[o], p[j + 1], p[i]);
      }
    }
  }

  ghost predicate PredecessorClosed(g: Graph, comp: seq<int>)
    requires |comp| == |g|
  {
    forall u: nat, v: nat :: v < |g| && Edge(g, u, v) && comp[v] != -1 ==> comp[u] != -1 && comp[u] <= comp[v]
  }

  lemma {:induction false} AssignedBackwards(g: Graph, comp: seq<int>, p: seq<nat>, i: nat)
    requires Closed(g) && |comp| == |g| && PredecessorClosed(g, comp)
    requires IsPath(g, p) && i < |p|
    requires p[i] < |g| && comp[p[i]] != -1
    ensures comp[p[0]] != -1
  {
    if i > 0 {
      assert Edge(g, p[i - 1], p[i - 1 + 1]);
      AssignedBackwards(g, comp, p, i - 1);
    }
  }

  lemma PositionOf(finish: seq<nat>, v: nat) returns (i: nat)
    requires v in finish
    ensures i < |finish| && finish[i] == v
  {
    i :| 0 <= i < |finish| && finish[i] == v;
  }

  /** Everything still unassigned that reaches the sweep's start is reached back from it. */
  lemma UnassignedReachedBack(g: Graph, comp: seq<int>, finish: seq<nat>, o: nat, x: nat)
    requires Closed(g) && Permutation(g, finish) && Bracketed(g, finish)
    requires |comp| == |g| && PredecessorClosed(g, comp)
    requires o < |finish| && forall k :: o < k < |finish| ==> comp[finish[k]] != -1
    requires x < |g| && comp[x] == -1 && Reach(g, x, finish[o])
    ensures Reach(g, finish[o], x)
  {
    var p :| PathFromTo(g, p, x, finish[o]);
    var q: seq<nat> := [];
    while |q| < |p|
      invariant |q| <= |p|
      invariant forall k :: 0 <= k < |q| ==> 0 <= q[k] <= o && finish[q[k]] == p[k]
    {
      PathInRange(g, p, |q|);
      var i := PositionOf(finish, p[|q|]);
      if i > o {
        AssignedBackwards(g, comp, p, |q|);
        assert false;
      }
      q := q + [i];
    }
    ReachedBack(g, finish, p, q, o, 0);
  }

  // ---- one sweep ----

  ghost predicate SweepInv(g: Graph, comp0: seq<int>, comp: seq<int>, c: nat, start: nat, members: seq<nat>, stack: seq<nat>) {
    && |comp0| == |g| && |comp| == |g|
    && start < |g| && comp[start] == c
    && (forall x :: 0 <= x < |g| ==> comp[x] == comp0[x] || (comp0[x] == -1 && comp[x] == c))
    && (forall x :: 0 <= x < |g| && comp0[x] == -1 && comp[x] == c ==> Reach(g, x, start))
    && Distinct(members + stack)
    && (forall x :: x in members + stack <==> 0 <= x < |g| && comp0[x] == -1 && comp[x] == c)
    && (forall x, u: nat :: x in members && Edge(g, u, x) ==> comp[u] != -1)
  }

  ghost function Unassigned(comp: seq<int>): set<nat> {
    set x: nat | x < |comp| && comp[x] == -1
  }

  /** Pop one node and push its unassigned predecessors. */
  method Absorb(g: Graph, reverse: Graph, ghost comp0: seq<int>, comp1: seq<int>, c: nat, ghost start: nat,
                ghost members: seq<nat>, stack1: seq<nat>)
    returns (comp: seq<int>, stack: seq<nat>)
    requires Closed(g) && |reverse| == |g|
    requires forall u: nat, v: nat :: 0 <= v < |g| ==> (u in reverse[v] <==> Edge(g, u, v))
    requires SweepInv(g, comp0, comp1, c, start, members, stack1) && |stack1| > 0
    ensures SweepInv(g, comp0, comp, c, start, members + [stack1[|stack1| - 1]], stack)
    ensures Unassigned(comp) <= Unassigned(comp1)
    ensures Unassigned(comp) == Unassigned(comp1) ==> |stack| < |stack1|
  {
    hide Reach;
    var node := stack1[|stack1| - 1];
    ghost var members' := members + [node];
    stack := stack1[..|stack1| - 1];
    comp := comp1;
    assert members' + stack == members + [node] + stack;
    assert stack1 == stack + [node];
    assert node in members + stack1;
    assert forall x :: x in members' + stack <==> x in members + stack1;
    Rotate(members, stack, node);
    for k := 0 to |reverse[node]|
      invariant |comp| == |g| && comp[start] == c
      invariant forall x :: 0 <= x < |g| ==> comp[x] == comp1[x] || (comp1[x] == -1 && comp[x] == c)
      invariant forall x :: 0 <= x < |g| && comp0[x] == -1 && comp[x] == c ==> Reach(g, x, start)
      invariant Distinct(members' + stack)
      invariant forall x :: x in members' + stack <==> 0 <= x < |g| && comp0[x] == -1 && comp[x] == c
      invariant forall j :: 0 <= j < k ==> reverse[node][j] < |g| && comp[reverse[node][j]] != -1
      invariant stack == stack1[..|stack1| - 1] || exists x :: 0 <= x < |g| && comp1[x] == -1 && comp[x] != -1
    {
      var source := reverse[node][k];
      assert source in reverse[node];
      assert Edge(g, source, node);
      if comp[source] == -1 {
        assert Reach(g, source, start) by {
          ReachEdge(g, source, node);
          ReachTrans(g, source, node, start);
        }
        assert members' + (stack + [source]) == (members' + stack) + [source];
        comp := comp[source := c];
        stack := stack + [source];
      }
    }
    forall u: nat | Edge(g, u, node)
      ensures comp[u] != -1
    {
      assert u in reverse[node];
    }
    if stack != stack1[..|stack1| - 1] {
      ghost var x :| 0 <= x < |g| && comp1[x] == -1 && comp[x] != -1;
      assert x in Unassigned(comp1) && x !in Unassigned(comp);
    }
  }

  lemma Rotate(a: seq<nat>, b: seq<nat>, x: nat)
    requires Distinct(a + (b + [x]))
    ensures Distinct((a + [x]) + b)
  {
    var s, t := a + (b + [x]), (a + [x]) + b;
    forall i, j | 0 <= i < j < |t|
      ensures t[i] != t[j]
    {
      var i' := if i < |a| then i else if i == |a| then |s| - 1 else i - 1;
      var j' := if j < |a| then j else if j == |a| then |s| - 1 else j - 1;
      assert t[i] == s[i'] && t[j] == s[j'];
      if i' < j' { assert s[i'] != s[j']; } else { assert s[j'] != s[i']; }
    }
  }

  /** Collect every unassigned node that reaches start. */
  method Sweep(g: Graph, reverse: Graph, comp0: seq<int>, c: nat, start: nat)
    returns (comp: seq<int>, members: seq<nat>)
    requires Closed(g) && |reverse| == |g| && |comp0| == |g|
    requires forall u: nat, v: nat :: 0 <= v < |g| ==> (u in reverse[v] <==> Edge(g, u, v))
    requires start < |g| && comp0[start] == -1
    requires forall x :: 0 <= x < |g| ==> comp0[x] != c
    ensures SweepInv(g, comp0, comp, c, start, members, [])
  {
    ReachSelf(g, start);
    hide Reach;
    comp := comp0[start := c];
    members := [];
    var stack := [start];
    ghost var open := Unassigned(comp);
    assert members + stack == [start];
    while |stack| > 0
      invariant SweepInv(g, comp0, comp, c, start, members, stack)
      invariant open == Unassigned(comp)
      decreases open, |stack|
    {
      hide SweepInv;
      var node := stack[|stack| - 1];
      comp, stack := Absorb(g, reverse, comp0, comp, c, start, members, stack);
      members := members + [node];
      open := Unassigned(comp);
    }
    assert stack == [];
  }

  // ---- the whole partition ----

  ghost predicate SameComponentIffMutual(g: Graph, comp: seq<int>)
    requires |comp| == |g|
  {
    forall x, y :: 0 <= x < |g| && 0 <= y < |g| && comp[x] != -1 && comp[y] != -1 ==> (comp[x] == comp[y] <==> Mutual(g, x, y))
  }

  ghost predicate ListsComponents(g: Graph, comp: seq<int>, lists: seq<seq<nat>>)
    requires |comp| == |g|
  {
    && (forall x :: 0 <= x < |g| ==> -1 <= comp[x] < |lists|)
    && (forall c :: 0 <= c < |lists| ==> |lists[c]| > 0 && Ascending(lists[c]))
    && (forall c, i :: 0 <= c < |lists| && 0 <= i < |lists[c]| ==> lists[c][i] < |g| && comp[lists[c][i]] == c)
    && (forall x :: 0 <= x < |g| && comp[x] != -1 ==> x in lists[comp[x]])
  }

  ghost predicate PartitionInv(g: Graph, comp: seq<int>, lists: seq<seq<nat>>) {
    && |comp| == |g|
    && PredecessorClosed(g, comp)
    && SameComponentIffMutual(g, comp)
    && ListsComponents(g, comp, lists)
  }

  lemma SweptMutual(g: Graph, comp0: seq<int>, lists: seq<seq<nat>>, finish: seq<nat>, o: nat, comp: seq<int>, members: seq<nat>, x: nat, y: nat)
    requires Closed(g) && Permutation(g, finish) && Bracketed(g, finish)
    requires PartitionInv(g, comp0, lists)
    requires o < |finish| && comp0[finish[o]] == -1 && forall k :: o < k < |finish| ==> comp0[finish[k]] != -1
    requires SweepInv(g, comp0, comp, |lists|, finish[o], members, [])
    requires x < |g| && y < |g| && comp0[x] == -1 && comp[x] == |lists| && comp[y] != -1
    ensures comp[y] == |lists| <==> Mutual(g, x, y)
  {
    hide Reach;
    var s := finish[o];
    UnassignedReachedBack(g, comp0, finish, o, x);
    if comp[y] == |lists| {
      UnassignedReachedBack(g, comp0, finish, o, y);
      ReachTrans(g, x, s, y);
      ReachTrans(g, y, s, x);
    } else if Mutual(g, x, y) {
      // y was assigned earlier, so everything that reaches it was too
      NoReachIntoAssigned(g, comp0, x, y);
    }
  }

  lemma NoReachIntoAssigned(g: Graph, comp: seq<int>, x: nat, y: nat)
    requires Closed(g) && |comp| == |g| && PredecessorClosed(g, comp)
    requires x < |g| && y < |g| && comp[x] == -1 && comp[y] != -1
    ensures !Reach(g, x, y)
  {
    if Reach(g, x, y) {
      var p :| PathFromTo(g, p, x, y);
      AssignedBackwards(g, comp, p, |p| - 1);
    }
  }

  lemma SweptLists(g: Graph, comp0: seq<int>, lists: seq<seq<nat>>, comp: seq<int>, start: nat, members: seq<nat>)
    requires |comp0| == |g| && |comp| == |g| && ListsComponents(g, comp0, lists) && start < |g| && comp0[start] == -1
    requires SweepInv(g, comp0, comp, |lists|, start, members, [])
    ensures Distinct(members) && ListsComponents(g, comp, lists + [SortInts(members)])
  {
    hide Reach, Ascending;
    assert members + [] == members;
    assert start in members;
    var sorted := SortInts(members);
    forall i | 0 <= i < |sorted|
      ensures sorted[i] < |g| && comp[sorted[i]] == |lists|
    {
      assert sorted[i] in sorted;
    }
  }

  lemma SweptClosed(g: Graph, comp0: seq<int>, lists: seq<seq<nat>>, comp: seq<int>, start: nat, members: seq<nat>)
    requires |comp0| == |g| && |comp| == |g| && PredecessorClosed(g, comp0) && ListsComponents(g, comp0, lists)
    requires SweepInv(g, comp0, comp, |lists|, start, members, [])
    ensures PredecessorClosed(g, comp)
  {
    hide Reach;
    assert members + [] == members;
    forall u: nat, v: nat | v < |g| && Edge(g, u, v) && comp[v] != -1
      ensures comp[u] != -1 && comp[u] <= comp[v]
    {
      if comp0[v] == -1 {
        assert v in members;
      }
    }
  }

  /** One sweep extends the partition by exactly one component. */
  lemma SweepKeeps(g: Graph, comp0: seq<int>, lists: seq<seq<nat>>, finish: seq<nat>, o: nat, comp: seq<int>, members: seq<nat>)
    requires Closed(g) && Permutation(g, finish) && Bracketed(g, finish)
    requires PartitionInv(g, comp0, lists)
    requires o < |finish| && comp0[finish[o]] == -1 && forall k :: o < k < |finish| ==> comp0[finish[k]] != -1
    requires SweepInv(g, comp0, comp, |lists|, finish[o], members, [])
    ensures Distinct(members) && PartitionInv(g, comp, lists + [SortInts(members)])
  {
    hide Reach, Mutual, Bracketed;
    SweptClosed(g, comp0, lists, comp, finish[o], members);
    SweptLists(g, comp0, lists, comp, finish[o], members);
    forall x, y | 0 <= x < |g| && 0 <= y < |g| && comp[x] != -1 && comp[y] != -1
      ensures comp[x] == comp[y] <==> Mutual(g, x, y)
    {
      if comp0[x] == -1 {
        SweptMutual(g, comp0, lists, finish, o, comp, members, x, y);
      } else if comp0[y] == -1 {
        SweptMutual(g, comp0, lists, finish, o, comp, members, y, x);
        MutualSymmetric(g, x, y);
      }
    }
  }

  lemma MutualSymmetric(g: Graph, x: nat, y: nat)
    ensures Mutual(g, x, y) <==> Mutual(g, y, x)
  {
  }

  /** Components in sweep order. Two nodes share a number exactly when each
      reaches the other; numbers never decrease along an edge; each component's
      members are listed in ascending order. */
  method Partition(g: Graph, finish: seq<nat>) returns (comp: seq<int>, lists: seq<seq<nat>>)
    requires Closed(g) && Permutation(g, finish) && Bracketed(g, finish)
    ensures PartitionInv(g, comp, lists)
    ensures forall x :: 0 <= x < |g| ==> 0 <= comp[x]
  {
    var reverse := Reverse(g);
    comp := seq(|g|, i => -1);
    lists := [];
    var order := |finish|;
    while order > 0
      invariant 0 <= order <= |finish|
      invariant PartitionInv(g, comp, lists)
      invariant forall k :: order <= k < |finish| ==> comp[finish[k]] != -1
    {
      hide Reach;
      order := order - 1;
      var start := finish[order];
      assert start in finish;
      if comp[start] == -1 {
        var comp', members := Sweep(g, reverse, comp, |lists|, start);
        SweepKeeps(g, comp, lists, finish, order, comp', members);
        comp := comp';
        lists := lists + [SortInts(members)];
      }
    }
    forall x | 0 <= x < |g|
      ensures 0 <= comp[x]
    {
      var i := PositionOf(finish, x);
    }
  }
}
