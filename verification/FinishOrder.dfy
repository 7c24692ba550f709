/** First half of Kosaraju's algorithm: the iterative depth-first search that
    lists nodes in the order in which their frames are popped. */
module FinishOrder {
  import opened Digraph

  /** One explicit frame: a node and the number of its successors already looked at. */
  datatype Frame = Frame(node: nat, next: nat)

  ghost predicate Distinct(s: seq<nat>) {
    forall i, j :: 0 <= i < j < |s| ==> s[i] != s[j]
  }

  ghost predicate Permutation(g: Graph, s: seq<nat>) {
    Distinct(s) && (forall i :: 0 <= i < |s| ==> s[i] < |g|) && forall u :: 0 <= u < |g| ==> u in s
  }

  /** The bracketing that depth-first finishing times have: an edge that leads to
      a later finish leads to a node that was still open all along, so that node
      reaches everything finished in between. */
  ghost predicate Bracketed(g: Graph, s: seq<nat>) {
    forall i, k, j :: 0 <= i <= k <= j < |s| && i < j && Edge(g, s[i], s[j]) ==> Reach(g, s[j], s[k])
  }

  ghost predicate OnStack(stack: seq<Frame>, v: nat) {
    exists i :: 0 <= i < |stack| && stack[i].node == v
  }

  ghost predicate StackShape(g: Graph, visited: seq<bool>, finish: seq<nat>, stack: seq<Frame>) {
    && |visited| == |g|
    && (forall i :: 0 <= i < |stack| ==> stack[i].node < |g| && stack[i].next <= |g[stack[i].node]|)
    && (forall i, j :: 0 <= i < j < |stack| ==> stack[i].node != stack[j].node)
    && (forall i :: 0 <= i < |stack| ==> stack[i].node !in finish)
    && (forall u :: u in finish ==> u < |g|)
    && Distinct(finish)
    && (forall u :: 0 <= u < |g| ==> (visited[u] <==> u in finish || OnStack(stack, u)))
  }

  ghost predicate SeenSuccessors(g: Graph, visited: seq<bool>, finish: seq<nat>, stack: seq<Frame>)
    requires Closed(g) && StackShape(g, visited, finish, stack)
  {
    && (forall i, k :: 0 <= i < |stack| && 0 <= k < stack[i].next ==> visited[g[stack[i].node][k]])
    && (forall u, v :: u in finish && v in g[u] ==> visited[v])
  }

  ghost predicate StackChain(g: Graph, stack: seq<Frame>) {
    forall i, j :: 0 <= i <= j < |stack| ==> Reach(g, stack[i].node, stack[j].node)
  }

  /** A finished node's edge into an open node v: v reaches everything finished since. */
  ghost predicate OpenBrackets(g: Graph, finish: seq<nat>, stack: seq<Frame>) {
    forall i, k, f :: 0 <= i <= k < |finish| && 0 <= f < |stack| && Edge(g, finish[i], stack[f].node)
      ==> Reach(g, stack[f].node, finish[k])
  }

  ghost predicate SearchInv(g: Graph, visited: seq<bool>, finish: seq<nat>, stack: seq<Frame>) {
    && Closed(g)
    && StackShape(g, visited, finish, stack)
    && SeenSuccessors(g, visited, finish, stack)
    && StackChain(g, stack)
    && OpenBrackets(g, finish, stack)
    && Bracketed(g, finish)
  }

  lemma Advance(g: Graph, visited: seq<bool>, finish: seq<nat>, stack: seq<Frame>)
    requires SearchInv(g, visited, finish, stack) && |stack| > 0
    requires stack[|stack| - 1].next < |g[stack[|stack| - 1].node]|
    requires visited[g[stack[|stack| - 1].node][stack[|stack| - 1].next]]
    ensures SearchInv(g, visited, finish, stack[|stack| - 1 := stack[|stack| - 1].(next := stack[|stack| - 1].next + 1)])
  {
    hide Reach;
    var t := |stack| - 1;
    var stack' := stack[t := stack[t].(next := stack[t].next + 1)];
    assert forall i :: 0 <= i < |stack| ==> stack'[i].node == stack[i].node;
    assert forall u :: OnStack(stack', u) <==> OnStack(stack, u);
  }

  lemma Open(g: Graph, visited: seq<bool>, finish: seq<nat>, stack: seq<Frame>, target: nat)
    requires SearchInv(g, visited, finish, stack)
    requires target < |g| && !visited[target]
    requires |stack| > 0 ==> Edge(g, stack[|stack| - 1].node, target)
    ensures SearchInv(g, visited[target := true], finish, stack + [Frame(target, 0)])
  {
    hide Reach;
    var visited', stack' := visited[target := true], stack + [Frame(target, 0)];
    assert stack'[|stack|].node == target;
    forall u
      ensures OnStack(stack', u) <==> u == target || OnStack(stack, u)
    {
      if OnStack(stack, u) {
        var i :| 0 <= i < |stack| && stack[i].node == u;
        assert stack'[i].node == u;
      }
    }
    assert !OnStack(stack, target);
    ReachSelf(g, target);
    forall i, j | 0 <= i <= j < |stack'|
      ensures Reach(g, stack'[i].node, stack'[j].node)
    {
      if j == |stack| && i < j {
        ReachEdge(g, stack[|stack| - 1].node, target);
        ReachTrans(g, stack[i].node, stack[|stack| - 1].node, target);
      }
    }
  }

  lemma Finish(g: Graph, visited: seq<bool>, finish: seq<nat>, stack: seq<Frame>)
    requires SearchInv(g, visited, finish, stack) && |stack| > 0
    requires stack[|stack| - 1].next == |g[stack[|stack| - 1].node]|
    ensures SearchInv(g, visited, finish + [stack[|stack| - 1].node], stack[..|stack| - 1])
  {
    hide Reach;
    var t := |stack| - 1;
    var top := stack[t].node;
    var finish', stack' := finish + [top], stack[..t];
    forall u
      ensures OnStack(stack, u) <==> u == top || OnStack(stack', u)
    {
      if OnStack(stack, u) && u != top {
        var i :| 0 <= i < |stack| && stack[i].node == u;
        assert stack'[i].node == u;
      }
    }
    forall i, k, f | 0 <= i <= k < |finish'| && 0 <= f < |stack'| && Edge(g, finish'[i], stack'[f].node)
      ensures Reach(g, stack'[f].node, finish'[k])
    {
      assert Reach(g, stack[f].node, stack[t].node);
    }
    forall i, k, j | 0 <= i <= k <= j < |finish'| && i < j && Edge(g, finish'[i], finish'[j])
      ensures Reach(g, finish'[j], finish'[k])
    {
      if j == |finish| && k < j {
        assert Edge(g, finish[i], stack[t].node);
      } else if j == |finish| {
        ReachSelf(g, top);
      }
    }
  }

  /** Moving the cursor of the frame below a freshly opened one. */
  lemma AdvanceBelow(g: Graph, visited: seq<bool>, finish: seq<nat>, stack: seq<Frame>, target: nat)
    requires |stack| > 0 && stack[|stack| - 1].node < |g|
    requires SearchInv(g, visited, finish, stack + [Frame(target, 0)])
    requires stack[|stack| - 1].next < |g[stack[|stack| - 1].node]|
    requires g[stack[|stack| - 1].node][stack[|stack| - 1].next] == target
    ensures SearchInv(g, visited, finish,
                      stack[|stack| - 1 := stack[|stack| - 1].(next := stack[|stack| - 1].next + 1)] + [Frame(target, 0)])
  {
    hide Reach;
    var t := |stack| - 1;
    var before := stack + [Frame(target, 0)];
    var after := stack[t := stack[t].(next := stack[t].next + 1)] + [Frame(target, 0)];
    assert forall i :: 0 <= i < |before| ==> after[i].node == before[i].node;
    assert forall u :: OnStack(after, u) <==> OnStack(before, u);
    assert before[t + 1].node == target;
    assert OnStack(before, target);
    assert visited[target];
    forall i, k | 0 <= i < |after| && 0 <= k < after[i].next
      ensures visited[g[after[i].node][k]]
    {
      assert i != t ==> after[i] == before[i];
      assert before[t] == stack[t];
    }
  }

  lemma OpenChild(g: Graph, visited: seq<bool>, finish: seq<nat>, stack: seq<Frame>, target: nat)
    requires SearchInv(g, visited, finish, stack) && |stack| > 0
    requires stack[|stack| - 1].next < |g[stack[|stack| - 1].node]|
    requires g[stack[|stack| - 1].node][stack[|stack| - 1].next] == target
    requires !visited[target]
    ensures SearchInv(g, visited[target := true], finish,
                      stack[|stack| - 1 := stack[|stack| - 1].(next := stack[|stack| - 1].next + 1)] + [Frame(target, 0)])
  {
    hide Reach;
    Open(g, visited, finish, stack, target);
    AdvanceBelow(g, visited[target := true], finish, stack, target);
  }

  lemma Bounds(g: Graph, visited: seq<bool>, finish: seq<nat>, stack: seq<Frame>)
    requires SearchInv(g, visited, finish, stack)
    ensures Closed(g) && |visited| == |g|
    ensures |stack| > 0 ==> stack[|stack| - 1].node < |g| && stack[|stack| - 1].next <= |g[stack[|stack| - 1].node]|
  {
  }

  /** Search from one unvisited start until its stack is empty. */
  method SearchFrom(g: Graph, start: nat, visited0: seq<bool>, finish0: seq<nat>)
    returns (visited: seq<bool>, finish: seq<nat>)
    requires SearchInv(g, visited0, finish0, [])
    requires start < |g| && !visited0[start]
    ensures SearchInv(g, visited, finish, [])
    ensures |visited| == |visited0| && visited[start]
    ensures forall u :: 0 <= u < |g| && visited0[u] ==> visited[u]
  {
    hide SearchInv;
    Bounds(g, visited0, finish0, []);
    Open(g, visited0, finish0, [], start);
    assert [] + [Frame(start, 0)] == [Frame(start, 0)];
    visited, finish := visited0[start := true], finish0;
    var stack := [Frame(start, 0)];
    ghost var white := set u | 0 <= u < |g| && !visited[u];
    while |stack| > 0
      invariant SearchInv(g, visited, finish, stack)
      invariant |visited| == |g| && visited[start]
      invariant |stack| > 0 ==> stack[|stack| - 1].node < |g|
      invariant forall u :: 0 <= u < |g| && visited0[u] ==> visited[u]
      invariant white == set u | 0 <= u < |g| && !visited[u]
      decreases white, |stack|, if |stack| > 0 then |g[stack[|stack| - 1].node]| - stack[|stack| - 1].next else 0
    {
      Bounds(g, visited, finish, stack);
      var t := |stack| - 1;
      var f := stack[t];
      if f.next < |g[f.node]| {
        var target := g[f.node][f.next];
        if !visited[target] {
          OpenChild(g, visited, finish, stack, target);
          assert target in white;
          stack := stack[t := f.(next := f.next + 1)];
          visited := visited[target := true];
          stack := stack + [Frame(target, 0)];
          white := white - {target};
        } else {
          Advance(g, visited, finish, stack);
          stack := stack[t := f.(next := f.next + 1)];
        }
      } else {
        Finish(g, visited, finish, stack);
        finish := finish + [f.node];
        stack := stack[..t];
      }
      Bounds(g, visited, finish, stack);
    }
    assert stack == [];
  }

  /** The finish order of a full depth-first search. */
  method Compute(g: Graph) returns (finish: seq<nat>)
    requires Closed(g)
    ensures Permutation(g, finish)
    ensures Bracketed(g, finish)
  {
    var visited := seq(|g|, i => false);
    finish := [];
    for start := 0 to |g|
      invariant SearchInv(g, visited, finish, [])
      invariant forall u :: 0 <= u < start ==> visited[u]
    {
      if !visited[start] {
        visited, finish := SearchFrom(g, start, visited, finish);
      }
    }
    assert forall u :: 0 <= u < |g| ==> visited[u] && !OnStack([], u);
    assert forall i :: 0 <= i < |finish| ==> finish[i] in finish;
  }
}
