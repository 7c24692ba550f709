/** Normalize itself: build, refine and validate the nodes, pick the roots,
    compute the components, refuse what no root reaches, flag the references. */
module Normalizer {
  import opened Digraph
  import opened FinishOrder
  import opened Components
  import opened Condensation
  import opened TypeComponents
  import opened TypeGraph
  import TN = TypeNodes

  // ---- roots ----

  ghost predicate RootNames(index: map<string, nat>, roots: seq<string>) {
    forall i :: 0 <= i < |roots| ==> roots[i] in index
  }

  /** Each name once, at its first place. */
  function Once(names: seq<string>): (r: seq<string>)
    ensures forall t :: t in r <==> t in names
    ensures forall i, j :: 0 <= i < j < |r| ==> r[i] != r[j]
  {
    if names == [] then []
    else
      assert names == names[..|names| - 1] + [names[|names| - 1]];
      var front := Once(names[..|names| - 1]);
      if names[|names| - 1] in front then front else front + [names[|names| - 1]]
  }

  function AllNames(nodes: seq<TN.Node>): seq<string> { seq(|nodes|, i requires 0 <= i < |nodes| => nodes[i].name) }

  /** Explicit roots first, then those the parameters refer to, each once; with none, every type is a root. */
  function Roots(nodes: seq<TN.Node>, rootTypeNames: seq<string>, parameterRoots: seq<string>): seq<string> {
    var roots := Once(rootTypeNames + parameterRoots);
    if roots == [] then AllNames(nodes) else roots
  }

  method PickRoots(nodes: seq<TN.Node>, index: map<string, nat>, rootTypeNames: seq<string>, parameterRoots: seq<string>)
    returns (res: Outcome<seq<string>>)
    requires TN.NameIndex(nodes, index)
    ensures res.Ok? <==> RootNames(index, rootTypeNames) && RootNames(index, parameterRoots)
    ensures res.Ok? ==> res.value == Roots(nodes, rootTypeNames, parameterRoots) && RootNames(index, res.value)
  {
    hide Once, TN.NameIndex;
    for i := 0 to |parameterRoots|
      invariant RootNames(index, parameterRoots[..i])
    {
      if parameterRoots[i] !in index {
        return Rejected("FOREIGN_TYPE_REFERENCE");
      }
    }
    assert parameterRoots[..|parameterRoots|] == parameterRoots;
    var roots: seq<string> := [];
    NothingOnce();
    for i := 0 to |rootTypeNames|
      invariant RootNames(index, rootTypeNames[..i]) && roots == Once(rootTypeNames[..i])
    {
      if rootTypeNames[i] !in index {
        return Rejected("FOREIGN_ROOT");
      }
      OneMore(rootTypeNames[..i], rootTypeNames[i]);
      assert rootTypeNames[..i + 1] == rootTypeNames[..i] + [rootTypeNames[i]];
      if rootTypeNames[i] !in roots {
        roots := roots + [rootTypeNames[i]];
      }
    }
    assert rootTypeNames[..|rootTypeNames|] == rootTypeNames && rootTypeNames + parameterRoots[..0] == rootTypeNames;
    for i := 0 to |parameterRoots|
      invariant roots == Once(rootTypeNames + parameterRoots[..i])
    {
      OneMore(rootTypeNames + parameterRoots[..i], parameterRoots[i]);
      assert rootTypeNames + parameterRoots[..i + 1] == rootTypeNames + parameterRoots[..i] + [parameterRoots[i]];
      if parameterRoots[i] !in roots {
        roots := roots + [parameterRoots[i]];
      }
    }
    assert parameterRoots[..|parameterRoots|] == parameterRoots;
    if |roots| == 0 {
      roots := AllNames(nodes);
    }
    RootsKnown(nodes, index, rootTypeNames, parameterRoots);
    res := Ok(roots);
  }

  lemma RootsKnown(nodes: seq<TN.Node>, index: map<string, nat>, rootTypeNames: seq<string>, parameterRoots: seq<string>)
    requires TN.NameIndex(nodes, index) && RootNames(index, rootTypeNames) && RootNames(index, parameterRoots)
    ensures RootNames(index, Roots(nodes, rootTypeNames, parameterRoots))
  {
    var all := rootTypeNames + parameterRoots;
    forall k | 0 <= k < |Once(all)| ensures Once(all)[k] in index {
      assert Once(all)[k] in all;
    }
  }

  lemma NothingOnce()
    ensures Once([]) == []
  {
  }

  lemma OneMore(names: seq<string>, name: string)
    ensures Once(names + [name]) == if name in Once(names) then Once(names) else Once(names) + [name]
  {
    assert (names + [name])[..|names|] == names;
  }

  ghost function RootIndices(index: map<string, nat>, roots: seq<string>): seq<nat>
    requires RootNames(index, roots)
  {
    seq(|roots|, i requires 0 <= i < |roots| => index[roots[i]])
  }

  /** Worklist over type names; what it collects is exactly what the roots reach. */
  method ReachableTypes(nodes: seq<TN.Node>, index: map<string, nat>, ghost g: Graph, roots: seq<string>) returns (r: set<string>)
    requires Setting(nodes, index) && Closed(g) && AdjacencyOf(nodes, index, g) && RootNames(index, roots)
    ensures forall t :: t in r <==> t in index && ReachedFrom(g, RootIndices(index, roots), index[t])
  {
    hide TN.Resolved, ReachedFrom, AdjacencyOf;
    ghost var rootIndices := RootIndices(index, roots);
    forall i | 0 <= i < |roots|
      ensures ReachedFrom(g, rootIndices, index[roots[i]])
    {
      assert rootIndices[i] == index[roots[i]];
      RootReached(g, nodes, index, rootIndices, index[roots[i]]);
    }
    r := {};
    var stack := roots;
    ghost var left := index.Keys;
    while |stack| > 0
      invariant forall i :: 0 <= i < |stack| ==> stack[i] in index && ReachedFrom(g, rootIndices, index[stack[i]])
      invariant forall t :: t in r ==> t in index && ReachedFrom(g, rootIndices, index[t])
      invariant forall t :: t in roots ==> t in r || t in stack
      invariant forall t, j :: t in r && 0 <= j < |nodes[index[t]].fields| && nodes[index[t]].fields[j].reference.kind != TN.ScalarRef ==>
        nodes[index[t]].fields[j].reference.targetType in r || nodes[index[t]].fields[j].reference.targetType in stack
      invariant left == index.Keys - r
      decreases left, |stack|
    {
      var name := stack[|stack| - 1];
      assert stack == stack[..|stack| - 1] + [name];
      stack := stack[..|stack| - 1];
      if name !in r {
        r := r + {name};
        left := left - {name};
        var targets := FieldTargets(nodes, index, g, index[name]);
        forall i | 0 <= i < |targets|
          ensures targets[i] in index && ReachedFrom(g, rootIndices, index[targets[i]])
        {
          EdgeReached(g, rootIndices, index[name], index[targets[i]]);
        }
        stack := stack + targets;
      }
    }
    forall t | t in index && ReachedFrom(g, rootIndices, index[t])
      ensures t in r
    {
      ReachedInside(nodes, index, g, roots, r, t);
    }
  }

  method FieldTargets(nodes: seq<TN.Node>, index: map<string, nat>, ghost g: Graph, i: nat) returns (targets: seq<string>)
    requires Setting(nodes, index) && AdjacencyOf(nodes, index, g) && i < |nodes|
    ensures forall k :: 0 <= k < |targets| ==> targets[k] in index && Edge(g, i, index[targets[k]])
    ensures forall j :: 0 <= j < |nodes[i].fields| && nodes[i].fields[j].reference.kind != TN.ScalarRef ==>
      nodes[i].fields[j].reference.targetType in targets
  {
    hide TN.Resolved;
    targets := [];
    for j := 0 to |nodes[i].fields|
      invariant forall k :: 0 <= k < |targets| ==> targets[k] in index && Edge(g, i, index[targets[k]])
      invariant forall b :: 0 <= b < j && nodes[i].fields[b].reference.kind != TN.ScalarRef ==> nodes[i].fields[b].reference.targetType in targets
    {
      var ref := nodes[i].fields[j].reference;
      if ref.kind != TN.ScalarRef {
        TargetIndexed(nodes, index, i, j);
        assert FieldRefers(nodes[i].fields[j], nodes[index[ref.targetType]].name);
        assert RefersByIndex(nodes, i, index[ref.targetType]);
        targets := targets + [ref.targetType];
      }
    }
  }

  lemma RootReached(g: Graph, nodes: seq<TN.Node>, index: map<string, nat>, roots: seq<nat>, v: nat)
    requires AdjacencyOf(nodes, index, g) && v in roots && v < |nodes|
    ensures ReachedFrom(g, roots, v)
  {
    ReachSelf(g, v);
  }

  lemma EdgeReached(g: Graph, roots: seq<nat>, u: nat, v: nat)
    requires ReachedFrom(g, roots, u) && Edge(g, u, v)
    ensures ReachedFrom(g, roots, v)
  {
    var r :| r in roots && Reach(g, r, u);
    ReachEdge(g, u, v);
    ReachTrans(g, r, u, v);
  }

  lemma ReachedInside(nodes: seq<TN.Node>, index: map<string, nat>, g: Graph, roots: seq<string>, r: set<string>, t: string)
    requires Setting(nodes, index) && Closed(g) && AdjacencyOf(nodes, index, g) && RootNames(index, roots)
    requires forall x :: x in r ==> x in index
    requires forall x :: x in roots ==> x in r
    requires forall x, j :: x in r && 0 <= j < |nodes[index[x]].fields| && nodes[index[x]].fields[j].reference.kind != TN.ScalarRef ==>
        nodes[index[x]].fields[j].reference.targetType in r
    requires t in index && ReachedFrom(g, RootIndices(index, roots), index[t])
    ensures t in r
  {
    hide TN.Resolved;
    var u :| u in RootIndices(index, roots) && Reach(g, u, index[t]);
    var p :| PathFromTo(g, p, u, index[t]);
    var i0 :| 0 <= i0 < |roots| && index[roots[i0]] == u;
    assert nodes[p[0]].name in r;
    for i := 1 to |p|
      invariant p[i - 1] < |nodes| && nodes[p[i - 1]].name in r
    {
      assert Edge(g, p[i - 1], p[i - 1 + 1]);
      assert RefersByIndex(nodes, p[i - 1], p[i]);
      var k :| 0 <= k < |nodes[p[i - 1]].fields| && FieldRefers(nodes[p[i - 1]].fields[k], nodes[p[i]].name);
    }
  }

  lemma SubsetOfEqualSize<T>(a: set<T>, b: set<T>)
    requires a <= b && |a| == |b|
    ensures a == b
  {
    assert |b - a| == |b| - |a|;
  }

  lemma IndexSize(nodes: seq<TN.Node>, index: map<string, nat>)
    requires TN.NameIndex(nodes, index)
    ensures |index.Keys| == |nodes|
  {
    var names: set<string> := {};
    for i := 0 to |nodes|
      invariant |names| == i && forall t :: t in names <==> t in index && index[t] < i
    {
      names := names + {nodes[i].name};
    }
    assert names == index.Keys;
  }

  // ---- cycles ----

  /** The cyclic components, in component order, as lists of type names. */
  ghost predicate CyclesOf(nodes: seq<TN.Node>, s: Summary, cycles: seq<seq<string>>, ids: seq<nat>) {
    && |ids| == |cycles|
    && Ascending(ids)
    && (forall c :: c in ids <==> c in s.cyclic && c < |s.members|)
    && forall x :: 0 <= x < |ids| ==> ids[x] < |s.members| && CycleNames(nodes, s.members[ids[x]], cycles[x])
  }

  ghost predicate CycleNames(nodes: seq<TN.Node>, members: seq<nat>, names: seq<string>) {
    |names| == |members| && forall i :: 0 <= i < |members| ==> members[i] < |nodes| && names[i] == nodes[members[i]].name
  }

  function NamesAt(nodes: seq<TN.Node>, members: seq<nat>): seq<string>
    requires forall i :: 0 <= i < |members| ==> members[i] < |nodes|
  {
    seq(|members|, i requires 0 <= i < |members| => nodes[members[i]].name)
  }

  predicate MembersInside(nodes: seq<TN.Node>, s: Summary) {
    forall c, i :: 0 <= c < |s.members| && 0 <= i < |s.members[c]| ==> s.members[c][i] < |nodes|
  }

  /** The member names of the cyclic ones among the first n components. */
  function Cycles(nodes: seq<TN.Node>, s: Summary, n: nat): seq<seq<string>>
    requires MembersInside(nodes, s) && n <= |s.members|
  {
    if n == 0 then [] else Cycles(nodes, s, n - 1) + if n - 1 in s.cyclic then [NamesAt(nodes, s.members[n - 1])] else []
  }

  method FinalCycles(nodes: seq<TN.Node>, s: Summary) returns (cycles: seq<seq<string>>)
    requires MembersInside(nodes, s)
    ensures cycles == Cycles(nodes, s, |s.members|)
  {
    cycles := [];
    for c := 0 to |s.members|
      invariant cycles == Cycles(nodes, s, c)
    {
      if c in s.cyclic {
        var names: seq<string> := [];
        for i := 0 to |s.members[c]|
          invariant |names| == i && forall k :: 0 <= k < i ==> names[k] == nodes[s.members[c][k]].name
        {
          names := names + [nodes[s.members[c][i]].name];
        }
        assert names == NamesAt(nodes, s.members[c]);
        cycles := cycles + [names];
      }
    }
  }

  /** Each listed cycle is one cyclic component, in order. */
  lemma {:induction false} CycleIds(nodes: seq<TN.Node>, s: Summary, n: nat) returns (ids: seq<nat>)
    requires MembersInside(nodes, s) && n <= |s.members|
    ensures |ids| == |Cycles(nodes, s, n)| && Ascending(ids)
    ensures forall d :: d in ids <==> d in s.cyclic && d < n
    ensures forall x :: 0 <= x < |ids| ==> ids[x] < n && CycleNames(nodes, s.members[ids[x]], Cycles(nodes, s, n)[x])
  {
    if n == 0 {
      ids := [];
    } else {
      ids := CycleIds(nodes, s, n - 1);
      if n - 1 in s.cyclic { ids := ids + [n - 1]; }
    }
  }

  /** A type is listed in some cycle exactly when a non-empty walk of references leads from it back to it. */
  lemma CycleListed(nodes: seq<TN.Node>, index: map<string, nat>, g: Graph, s: Summary, cycles: seq<seq<string>>, ids: seq<nat>, i: nat)
    requires Setting(nodes, index) && |g| == |nodes| && Closed(g) && SummaryOf(g, s) && CyclesOf(nodes, s, cycles, ids)
    requires i < |nodes|
    ensures (exists x :: 0 <= x < |cycles| && nodes[i].name in cycles[x]) <==> NodeOnCycle(g, i)
  {
    hide NodeOnCycle, TN.Resolved, PredecessorClosed;
    if x :| 0 <= x < |cycles| && nodes[i].name in cycles[x] {
      var c := ids[x];
      assert c in ids;
      var k :| 0 <= k < |cycles[x]| && cycles[x][k] == nodes[i].name;
      assert s.members[c][k] == i;
      assert s.comp[i] == c;
      var u: nat :| u < |g| && s.comp[u] == c && NodeOnCycle(g, u);
      assert Mutual(g, i, u);
      CycleShared(g, i, u);
    }
    if NodeOnCycle(g, i) {
      var c := s.comp[i];
      assert c in s.cyclic;
      assert i in s.members[c];
      var x :| 0 <= x < |ids| && ids[x] == c;
      var k :| 0 <= k < |s.members[c]| && s.members[c][k] == i;
      assert cycles[x][k] == nodes[i].name;
    }
  }

  lemma CycleShared(g: Graph, i: nat, u: nat)
    requires Mutual(g, i, u) && NodeOnCycle(g, u)
    ensures NodeOnCycle(g, i)
  {
    var c :| ClosedWalk(g, c) && c[0] == u;
    var p :| PathFromTo(g, p, i, u);
    var q :| PathFromTo(g, q, u, i);
    PathConcat(g, p, c);
    PathConcat(g, p + c[1..], q);
    var w := (p + c[1..]) + q[1..];
    assert ClosedWalk(g, w) && w[0] == i;
  }

  // ---- everything together ----

  lemma NormalFacts(nodes: seq<TN.Node>, index: map<string, nat>, g: Graph, s: Summary, out: Types)
    requires Finalised(nodes, index, g, s, out)
    requires forall i :: 0 <= i < |nodes| ==> TN.KindShape(nodes[i]) && TN.DistinctNames(nodes[i].fields)
    ensures forall a :: a in out ==> out[a].name == a
    ensures ReferencesResolve(out) && TablesAreLines(out) && FieldNamesDistinct(out)
  {
    hide TN.Resolved, AdjacencyOf;
    forall a | a in out
      ensures out[a].name == a
      ensures out[a].kind == TN.TableNode ==> |out[a].fields| == 1 && out[a].fields[0].name == ""
    {
      assert FinalNodeOf(nodes, index, s, index[a], out[nodes[index[a]].name]);
      if out[a].kind == TN.TableNode {
        assert FinalFieldOf(nodes, index, s, index[a], 0, out[a].fields[0]);
      }
    }
    forall a, j, k | a in out && 0 <= j < k < |out[a].fields|
      ensures out[a].fields[j].name != out[a].fields[k].name
    {
      var i := index[a];
      assert FinalNodeOf(nodes, index, s, i, out[nodes[i].name]);
      assert FinalFieldOf(nodes, index, s, i, j, out[a].fields[j]);
      assert FinalFieldOf(nodes, index, s, i, k, out[a].fields[k]);
    }
    forall a, k | a in out && 0 <= k < |out[a].fields| && out[a].fields[k].reference.kind != TN.ScalarRef
      ensures out[a].fields[k].reference.targetType in out
      ensures TN.KindMatches(out[a].fields[k].reference.kind, out[out[a].fields[k].reference.targetType].kind)
    {
      var i := index[a];
      assert FinalNodeOf(nodes, index, s, i, out[nodes[i].name]);
      assert FinalFieldOf(nodes, index, s, i, k, out[a].fields[k]);
      TargetIndexed(nodes, index, i, k);
      var v := index[nodes[i].fields[k].reference.targetType];
      assert FinalNodeOf(nodes, index, s, v, out[nodes[v].name]);
    }
  }

  lemma RootsReach(nodes: seq<TN.Node>, index: map<string, nat>, g: Graph, s: Summary, out: Types, roots: seq<string>)
    requires Finalised(nodes, index, g, s, out) && RootNames(index, roots)
    requires forall v :: 0 <= v < |g| ==> ReachedFrom(g, RootIndices(index, roots), v)
    ensures RootsReachAll(out, roots)
  {
    hide TN.Resolved, FinalNodeOf, TypePathFrom;
    forall a | a in out
      ensures exists p :: TypePathFrom(out, p, roots, a)
    {
      assert ReachedFrom(g, RootIndices(index, roots), index[a]);
      var u :| u in RootIndices(index, roots) && Reach(g, u, index[a]);
      RootReaches(nodes, index, g, s, out, roots, u, a);
    }
  }

  lemma RootReaches(nodes: seq<TN.Node>, index: map<string, nat>, g: Graph, s: Summary, out: Types, roots: seq<string>, u: nat, a: string)
    requires Finalised(nodes, index, g, s, out) && RootNames(index, roots) && a in out
    requires u in RootIndices(index, roots) && Reach(g, u, index[a])
    ensures exists p :: TypePathFrom(out, p, roots, a)
  {
    hide TN.Resolved, AdjacencyOf, FinalNodeOf, TypePath;
    var i :| 0 <= i < |roots| && index[roots[i]] == u;
    var q :| PathFromTo(g, q, u, index[a]);
    PathToNames(nodes, index, g, s, out, q);
    var p := Names(nodes, q);
    assert p[0] == roots[i];
    assert TypePathFrom(out, p, roots, a);
  }

  lemma IsNormalised(nodes: seq<TN.Node>, index: map<string, nat>, g: Graph, s: Summary, out: Types, roots: seq<string>, a: Dag, cycles: seq<seq<string>>)
    requires Finalised(nodes, index, g, s, out) && SummaryOf(g, s) && RootNames(index, roots)
    requires forall i :: 0 <= i < |nodes| ==> TN.KindShape(nodes[i]) && TN.DistinctNames(nodes[i].fields)
    requires |s.comp| == |g| && DepthOf(g, RootIndices(index, roots), s.comp, |s.members|, a, s.maximumDepth)
    requires forall v :: 0 <= v < |g| ==> ReachedFrom(g, RootIndices(index, roots), v)
    ensures Normalised(Normal(out, roots, cycles, s.maximumDepth))
  {
    hide Finalised, SummaryOf, DepthOf, ReachedFrom, ReferencesResolve, TablesAreLines, FieldNamesDistinct, CyclicExact, DescentBounded, RootsReachAll, Ranked;
    NormalFacts(nodes, index, g, s, out);
    FinalCyclicExact(nodes, index, g, s, out);
    AllDescentsBounded(nodes, index, g, s, out, RootIndices(index, roots), a);
    RootsReach(nodes, index, g, s, out, roots);
    DescentRanked(nodes, index, g, s, out);
  }

  /** The provisional nodes of the rows, their kinds refined. */
  ghost function Provisional(rows: seq<TN.TypeRow>, tablesByParameters: set<string>): seq<TN.Node> {
    var built := TN.NodesOf(rows);
    seq(|built|, i requires 0 <= i < |built| => TN.RefinedNode(built[i], TN.UsedAsTable(built, tablesByParameters, built[i].name)))
  }

  /** Whether every name is one of the types. */
  ghost predicate Known(nodes: seq<TN.Node>, names: seq<string>) {
    forall k :: 0 <= k < |names| ==> names[k] in AllNames(nodes)
  }

  /** All that can be asked of the input before the components are known. */
  ghost predicate Admissible(rows: seq<TN.TypeRow>, tablesByParameters: set<string>, parameterRoots: seq<string>, rootTypeNames: seq<string>, limits: TN.Limits) {
    var nodes := Provisional(rows, tablesByParameters);
    TN.RowsAcceptable(rows, limits) && TN.Resolved(nodes) && Known(nodes, rootTypeNames) && Known(nodes, parameterRoots)
  }

  /** The graph of the types, its strongly connected components and their condensation, found on the way. */
  datatype Trace = Trace(nodes: seq<TN.Node>, index: map<string, nat>, g: Graph, roots: seq<string>, summary: Summary, a: Dag)

  ghost predicate TraceOf(t: Trace) {
    && Setting(t.nodes, t.index) && Closed(t.g) && AdjacencyOf(t.nodes, t.index, t.g) && RootNames(t.index, t.roots)
    && SummaryOf(t.g, t.summary)
    && DepthOf(t.g, RootIndices(t.index, t.roots), t.summary.comp, |t.summary.members|, t.a, t.summary.maximumDepth)
  }

  /** Input that is admissible is normalised exactly when the longest chain of strongly connected components from a root is within the
      limit and the roots reach every type; anything else is refused. The result holds each type of the rows with its
      rows as fields, a flag on each reference that lies on a cycle, and the cycles. */
  method Normalize(rows: seq<TN.TypeRow>, tablesByParameters: set<string>, parameterRoots: seq<string>, rootTypeNames: seq<string>, limits: TN.Limits)
    returns (res: Outcome<Normal>, ghost t: Trace)
    ensures !Admissible(rows, tablesByParameters, parameterRoots, rootTypeNames, limits) ==> res.Rejected?
    ensures Admissible(rows, tablesByParameters, parameterRoots, rootTypeNames, limits) ==>
              && TraceOf(t) && t.nodes == Provisional(rows, tablesByParameters) && t.roots == Roots(t.nodes, rootTypeNames, parameterRoots)
              && (res.Ok? <==> t.summary.maximumDepth <= limits.maxDepth && forall v :: 0 <= v < |t.g| ==> ReachedFrom(t.g, RootIndices(t.index, t.roots), v))
    ensures res.Ok? ==> Normalised(res.value) && res.value.maximumDepth == t.summary.maximumDepth && res.value.rootTypeNames == t.roots
    ensures res.Ok? ==> Finalised(t.nodes, t.index, t.g, t.summary, res.value.nodes)
    ensures res.Ok? ==> forall i :: 0 <= i < |t.nodes| ==>
      ((exists x :: 0 <= x < |res.value.cycles| && t.nodes[i].name in res.value.cycles[x]) <==> NodeOnCycle(t.g, i))
  {
    hide *;
    t := Trace([], map[], [], [], Summary([], [], {}, 0), []);
    var built := TN.BuildNodes(rows, limits);
    if built.Rejected? {
      NotAdmissible(rows, tablesByParameters, parameterRoots, rootTypeNames, limits);
      return Rejected(built.code), t;
    }
    var provisional := TN.RefineTableNodeKinds(built.value, tablesByParameters);
    RefinedShapes(built.value, provisional, tablesByParameters);
    IsProvisional(rows, built.value, provisional, tablesByParameters);
    var indexByName := TN.IndexByName(provisional);
    var valid := TN.ValidateNodeTargets(provisional, indexByName);
    if valid.Rejected? {
      NotAdmissible(rows, tablesByParameters, parameterRoots, rootTypeNames, limits);
      return Rejected(valid.code), t;
    }
    SettingHolds(provisional, indexByName);
    var roots := PickRoots(provisional, indexByName, rootTypeNames, parameterRoots);
    KnownIff(provisional, indexByName, rootTypeNames);
    KnownIff(provisional, indexByName, parameterRoots);
    NotAdmissible(rows, tablesByParameters, parameterRoots, rootTypeNames, limits);
    if roots.Rejected? {
      return Rejected(roots.code), t;
    }
    var adjacency := Adjacency(provisional, indexByName);
    var rootIndices := Lookup(provisional, indexByName, roots.value);
    ghost var s, dag;
    var summary;
    summary, s, dag := GraphComponents(adjacency, rootIndices, limits.maxDepth);
    SummarySize(adjacency, s);
    t := Trace(provisional, indexByName, adjacency, roots.value, s, dag);
    IsTrace(t);
    if summary.Rejected? {
      return Rejected(summary.code), t;
    }
    var reachable := ReachableTypes(provisional, indexByName, adjacency, roots.value);
    AllReachedIff(provisional, indexByName, adjacency, roots.value, reachable);
    if |reachable| != |provisional| {
      return Rejected("FOREIGN_TYPE_NODE"), t;
    }
    SummaryBounds(provisional, indexByName, adjacency, summary.value);
    var final := FinalNodes(provisional, indexByName, summary.value);
    var cycles := FinalCycles(provisional, summary.value);
    ghost var ids := CycleIds(provisional, summary.value, |summary.value.members|);
    IsCyclesOf(provisional, summary.value, cycles, ids);
    FinalisedHolds(provisional, indexByName, adjacency, summary.value, final);
    IsNormalised(provisional, indexByName, adjacency, summary.value, final, roots.value, dag, cycles);
    forall i | 0 <= i < |provisional|
      ensures (exists x :: 0 <= x < |cycles| && provisional[i].name in cycles[x]) <==> NodeOnCycle(adjacency, i)
    {
      CycleListed(provisional, indexByName, adjacency, summary.value, cycles, ids, i);
    }
    res := Ok(Normal(final, roots.value, cycles, summary.value.maximumDepth));
  }

  lemma NotAdmissible(rows: seq<TN.TypeRow>, tables: set<string>, parameterRoots: seq<string>, rootTypeNames: seq<string>, limits: TN.Limits)
    ensures Admissible(rows, tables, parameterRoots, rootTypeNames, limits) <==>
            TN.RowsAcceptable(rows, limits) && TN.Resolved(Provisional(rows, tables))
            && Known(Provisional(rows, tables), rootTypeNames) && Known(Provisional(rows, tables), parameterRoots)
  {
  }

  lemma IsProvisional(rows: seq<TN.TypeRow>, built: seq<TN.Node>, refined: seq<TN.Node>, tables: set<string>)
    requires built == TN.NodesOf(rows) && |refined| == |built|
    requires forall i :: 0 <= i < |built| ==> refined[i] == TN.RefinedNode(built[i], TN.UsedAsTable(built, tables, built[i].name))
    ensures refined == Provisional(rows, tables)
  {
    hide TN.NodesOf, TN.RefinedNode, TN.UsedAsTable;
  }

  lemma KnownIff(nodes: seq<TN.Node>, index: map<string, nat>, names: seq<string>)
    requires TN.NameIndex(nodes, index)
    ensures Known(nodes, names) <==> RootNames(index, names)
  {
    forall t: string ensures t in AllNames(nodes) <==> t in index {
      if t in index { assert AllNames(nodes)[index[t]] == t; }
    }
  }

  lemma IsTrace(t: Trace)
    requires Setting(t.nodes, t.index) && Closed(t.g) && AdjacencyOf(t.nodes, t.index, t.g) && RootNames(t.index, t.roots)
    requires SummaryOf(t.g, t.summary)
    requires |t.summary.comp| == |t.g| && DepthOf(t.g, RootIndices(t.index, t.roots), t.summary.comp, |t.summary.members|, t.a, t.summary.maximumDepth)
    ensures TraceOf(t)
  {
  }

  lemma SummarySize(g: Graph, s: Summary)
    requires SummaryOf(g, s)
    ensures |s.comp| == |g|
  {
  }

  lemma RefinedShapes(built: seq<TN.Node>, refined: seq<TN.Node>, tables: set<string>)
    requires |built| == |refined| && TN.UniqueNames(built)
    requires forall i :: 0 <= i < |built| ==> TN.GoodNode(built[i])
    requires forall i :: 0 <= i < |built| ==> refined[i] == TN.RefinedNode(built[i], TN.UsedAsTable(built, tables, built[i].name))
    ensures TN.UniqueNames(refined)
    ensures forall i :: 0 <= i < |refined| ==> TN.KindShape(refined[i]) && TN.DistinctNames(refined[i].fields)
  {
  }

  lemma SettingHolds(nodes: seq<TN.Node>, index: map<string, nat>)
    requires TN.UniqueNames(nodes) && TN.NameIndex(nodes, index) && TN.Resolved(nodes)
    ensures Setting(nodes, index)
  {
  }

  lemma FinalisedHolds(nodes: seq<TN.Node>, index: map<string, nat>, g: Graph, s: Summary, out: Types)
    requires Setting(nodes, index) && |s.comp| == |nodes| && Closed(g) && AdjacencyOf(nodes, index, g) && FinalOf(nodes, index, s, out)
    ensures Finalised(nodes, index, g, s, out) && out.Keys == index.Keys
  {
  }

  method Lookup(nodes: seq<TN.Node>, index: map<string, nat>, roots: seq<string>) returns (out: seq<nat>)
    requires TN.NameIndex(nodes, index) && RootNames(index, roots)
    ensures out == RootIndices(index, roots) && forall i :: 0 <= i < |out| ==> out[i] < |nodes|
  {
    out := [];
    for i := 0 to |roots|
      invariant |out| == i && forall k :: 0 <= k < i ==> out[k] == index[roots[k]]
    {
      out := out + [index[roots[i]]];
    }
  }

  lemma AllReachedIff(nodes: seq<TN.Node>, index: map<string, nat>, g: Graph, roots: seq<string>, reachable: set<string>)
    requires Setting(nodes, index) && AdjacencyOf(nodes, index, g) && RootNames(index, roots)
    requires forall t :: t in reachable <==> t in index && ReachedFrom(g, RootIndices(index, roots), index[t])
    ensures |reachable| == |nodes| <==> forall v :: 0 <= v < |g| ==> ReachedFrom(g, RootIndices(index, roots), v)
  {
    hide ReachedFrom, TN.Resolved;
    IndexSize(nodes, index);
    if |reachable| == |nodes| {
      SubsetOfEqualSize(reachable, index.Keys);
      forall v | 0 <= v < |g| ensures ReachedFrom(g, RootIndices(index, roots), v) {
        assert nodes[v].name in reachable;
      }
    }
    if forall v :: 0 <= v < |g| ==> ReachedFrom(g, RootIndices(index, roots), v) {
      assert reachable == index.Keys;
    }
  }

  lemma IsCyclesOf(nodes: seq<TN.Node>, s: Summary, cycles: seq<seq<string>>, ids: seq<nat>)
    requires |ids| == |cycles| && Ascending(ids)
    requires forall d :: d in ids <==> d in s.cyclic && d < |s.members|
    requires forall x :: 0 <= x < |ids| ==> ids[x] < |s.members| && CycleNames(nodes, s.members[ids[x]], cycles[x])
    ensures CyclesOf(nodes, s, cycles, ids)
  {
  }

  lemma SummaryBounds(nodes: seq<TN.Node>, index: map<string, nat>, g: Graph, s: Summary)
    requires AdjacencyOf(nodes, index, g) && SummaryOf(g, s)
    ensures |g| == |nodes| && |s.comp| == |nodes|
    ensures MembersInside(nodes, s)
  {
  }
}
