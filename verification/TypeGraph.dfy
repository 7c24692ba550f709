/** Normalize: the bounded identity graph of a type closure. Every reference in
    it says whether it lies on a cycle of types, and following only the others
    never enters more types in a row than the graph's maximum depth. */
module TypeGraph {
  import opened Digraph
  import opened FinishOrder
  import opened Components
  import opened Condensation
  import opened TypeComponents
  import TN = TypeNodes

  datatype TypedReference = TypedReference(kind: TN.RefKind, internalType: string, targetType: string, cyclic: bool)

  datatype MetadataField = MetadataField(
    name: string, position: nat, associatedType: string, internalType: string,
    nucOffset: nat, ucOffset: nat, nucLength: nat, ucLength: nat, reference: TypedReference)

  datatype TypeNode = TypeNode(name: string, kind: TN.NodeKind, nucLength: nat, ucLength: nat, timestamp: string, fields: seq<MetadataField>)

  datatype Normal = Normal(nodes: map<string, TypeNode>, rootTypeNames: seq<string>, cycles: seq<seq<string>>, maximumDepth: nat)

  // ---- the type graph by name ----

  type Types = map<string, TypeNode>

  ghost predicate Refers(f: MetadataField, t: string) {
    f.reference.kind != TN.ScalarRef && f.reference.targetType == t
  }

  ghost predicate TypeEdge(nodes: Types, a: string, b: string) {
    a in nodes && b in nodes && exists k :: 0 <= k < |nodes[a].fields| && Refers(nodes[a].fields[k], b)
  }

  ghost predicate TypePath(nodes: Types, p: seq<string>) {
    |p| > 0 && p[0] in nodes && forall i :: 0 <= i < |p| - 1 ==> TypeEdge(nodes, p[i], p[i + 1])
  }

  /** The step a -> b belongs to a closed walk through types. */
  ghost predicate OnTypeCycle(nodes: Types, a: string, b: string) {
    exists c, i :: TypeWalkOver(nodes, c, i, a, b)
  }

  ghost predicate TypeWalkOver(nodes: Types, c: seq<string>, i: int, a: string, b: string) {
    TypePath(nodes, c) && |c| >= 2 && c[0] == c[|c| - 1] && 0 <= i < |c| - 1 && c[i] == a && c[i + 1] == b
  }

  /** A chain of types each reached from the one before through a reference not flagged cyclic. */
  ghost predicate Descent(nodes: Types, p: seq<string>) {
    |p| > 0 && p[0] in nodes && forall i :: 0 <= i < |p| - 1 ==> DescentStep(nodes, p[i], p[i + 1])
  }

  ghost predicate DescentStep(nodes: Types, a: string, b: string) {
    a in nodes && b in nodes && exists k :: 0 <= k < |nodes[a].fields| && Refers(nodes[a].fields[k], b) && !nodes[a].fields[k].reference.cyclic
  }

  // ---- what a normalised graph promises ----

  ghost predicate CyclicExact(nodes: Types) {
    forall a, k :: a in nodes && 0 <= k < |nodes[a].fields| && nodes[a].fields[k].reference.kind != TN.ScalarRef ==>
      (nodes[a].fields[k].reference.cyclic <==> OnTypeCycle(nodes, a, nodes[a].fields[k].reference.targetType))
  }

  ghost predicate ReferencesResolve(nodes: Types) {
    forall a, k :: a in nodes && 0 <= k < |nodes[a].fields| && nodes[a].fields[k].reference.kind != TN.ScalarRef ==>
      nodes[a].fields[k].reference.targetType in nodes
      && TN.KindMatches(nodes[a].fields[k].reference.kind, nodes[nodes[a].fields[k].reference.targetType].kind)
  }

  ghost predicate TablesAreLines(nodes: Types) {
    forall a :: a in nodes && nodes[a].kind == TN.TableNode ==> |nodes[a].fields| == 1 && nodes[a].fields[0].name == ""
  }

  ghost predicate FieldNamesDistinct(nodes: Types) {
    forall a, i, j :: a in nodes && 0 <= i < j < |nodes[a].fields| ==> nodes[a].fields[i].name != nodes[a].fields[j].name
  }

  ghost predicate DescentBounded(nodes: Types, depth: nat) {
    forall p :: Descent(nodes, p) ==> |p| <= depth && forall i, j :: 0 <= i < j < |p| ==> p[i] != p[j]
  }

  ghost predicate RootsReachAll(nodes: Types, roots: seq<string>) {
    forall a :: a in nodes ==> exists p :: TypePathFrom(nodes, p, roots, a)
  }

  ghost predicate TypePathFrom(nodes: Types, p: seq<string>, roots: seq<string>, a: string) {
    TypePath(nodes, p) && p[0] in roots && p[|p| - 1] == a
  }

  /** Ranks grow strictly along every reference not flagged cyclic: the flagged ones are all that has to be cut. */
  ghost predicate Ranked(nodes: Types, rank: map<string, nat>) {
    && rank.Keys == nodes.Keys
    && forall a, b :: DescentStep(nodes, a, b) ==> rank[a] < rank[b]
  }

  ghost predicate Normalised(n: Normal) {
    && (forall a :: a in n.nodes ==> n.nodes[a].name == a)
    && ReferencesResolve(n.nodes)
    && TablesAreLines(n.nodes)
    && FieldNamesDistinct(n.nodes)
    && CyclicExact(n.nodes)
    && DescentBounded(n.nodes, n.maximumDepth)
    && RootsReachAll(n.nodes, n.rootTypeNames)
    && exists rank :: Ranked(n.nodes, rank)
  }

  // ---- the same graph by index ----

  ghost predicate Setting(nodes: seq<TN.Node>, index: map<string, nat>) {
    TN.UniqueNames(nodes) && TN.NameIndex(nodes, index) && TN.Resolved(nodes)
  }

  lemma TargetIndexed(nodes: seq<TN.Node>, index: map<string, nat>, i: nat, j: nat)
    requires Setting(nodes, index)
    requires i < |nodes| && j < |nodes[i].fields| && nodes[i].fields[j].reference.kind != TN.ScalarRef
    ensures nodes[i].fields[j].reference.targetType in index
    ensures index[nodes[i].fields[j].reference.targetType] < |nodes|
    ensures TN.KindMatches(nodes[i].fields[j].reference.kind, nodes[index[nodes[i].fields[j].reference.targetType]].kind)
  {
    assert TN.ReferenceResolved(nodes, nodes[i].fields[j].reference);
  }

  ghost predicate AdjacencyOf(nodes: seq<TN.Node>, index: map<string, nat>, g: Graph) {
    && |g| == |nodes|
    && (forall i, v :: 0 <= i < |g| && v in g[i] ==> v < |g|)
    && forall i, v :: 0 <= i < |nodes| && 0 <= v < |nodes| ==> (v in g[i] <==> RefersByIndex(nodes, i, v))
  }

  ghost predicate RefersByIndex(nodes: seq<TN.Node>, i: nat, v: nat)
    requires i < |nodes| && v < |nodes|
  {
    exists k :: 0 <= k < |nodes[i].fields| && FieldRefers(nodes[i].fields[k], nodes[v].name)
  }

  ghost predicate FieldRefers(f: TN.Field, t: string) {
    f.reference.kind != TN.ScalarRef && f.reference.targetType == t
  }

  method Adjacency(nodes: seq<TN.Node>, index: map<string, nat>) returns (g: Graph)
    requires Setting(nodes, index)
    ensures |g| == |nodes| && Closed(g) && AdjacencyOf(nodes, index, g)
  {
    hide TN.Resolved;
    g := [];
    for i := 0 to |nodes|
      invariant |g| == i
      invariant forall a, k :: 0 <= a < i && 0 <= k < |g[a]| ==> g[a][k] < |nodes|
      invariant forall a, v :: 0 <= a < i && 0 <= v < |nodes| ==> (v in g[a] <==> RefersByIndex(nodes, a, v))
    {
      var row := AdjacencyRow(nodes, index, i);
      g := g + [row];
    }
  }

  method AdjacencyRow(nodes: seq<TN.Node>, index: map<string, nat>, i: nat) returns (row: seq<nat>)
    requires Setting(nodes, index) && i < |nodes|
    ensures forall k :: 0 <= k < |row| ==> row[k] < |nodes|
    ensures forall v :: 0 <= v < |nodes| ==> (v in row <==> RefersByIndex(nodes, i, v))
  {
    hide TN.Resolved;
    row := [];
    for j := 0 to |nodes[i].fields|
      invariant forall k :: 0 <= k < |row| ==> row[k] < |nodes|
      invariant forall v :: 0 <= v < |nodes| ==> (v in row <==> exists k :: 0 <= k < j && FieldRefers(nodes[i].fields[k], nodes[v].name))
    {
      var r := nodes[i].fields[j].reference;
      if r.kind != TN.ScalarRef {
        TargetIndexed(nodes, index, i, j);
        assert FieldRefers(nodes[i].fields[j], nodes[index[r.targetType]].name);
        row := row + [index[r.targetType]];
      }
    }
  }

  // ---- final nodes ----

  function FinalReference(r: TN.Reference, cyclic: bool): TypedReference {
    if r.kind == TN.ScalarRef then TypedReference(TN.ScalarRef, r.internalType, "", false)
    else TypedReference(r.kind, "", r.targetType, cyclic)
  }

  function FinalField(f: TN.Field, cyclic: bool): MetadataField {
    MetadataField(f.name, f.position, f.associatedType, f.internalType, f.nucOffset, f.ucOffset, f.nucLength, f.ucLength,
                  FinalReference(f.reference, cyclic))
  }

  /** The flag the code computes: same component, and that component is cyclic. */
  predicate Flag(nodes: seq<TN.Node>, index: map<string, nat>, s: Summary, i: nat, r: TN.Reference)
    requires i < |s.comp| && (r.kind != TN.ScalarRef ==> r.targetType in index && index[r.targetType] < |s.comp|)
  {
    r.kind != TN.ScalarRef && s.comp[i] == s.comp[index[r.targetType]] && s.comp[i] >= 0 && s.comp[i] in s.cyclic
  }

  ghost predicate FinalOf(nodes: seq<TN.Node>, index: map<string, nat>, s: Summary, out: Types)
    requires Setting(nodes, index) && |s.comp| == |nodes|
  {
    && out.Keys == index.Keys
    && forall i :: 0 <= i < |nodes| ==> FinalNodeOf(nodes, index, s, i, out[nodes[i].name])
  }

  ghost predicate FinalNodeOf(nodes: seq<TN.Node>, index: map<string, nat>, s: Summary, i: nat, n: TypeNode)
    requires Setting(nodes, index) && |s.comp| == |nodes| && i < |nodes|
  {
    && n.name == nodes[i].name && n.kind == nodes[i].kind && n.nucLength == nodes[i].nucLength
    && n.ucLength == nodes[i].ucLength && n.timestamp == nodes[i].timestamp
    && |n.fields| == |nodes[i].fields|
    && forall j :: 0 <= j < |n.fields| ==> FinalFieldOf(nodes, index, s, i, j, n.fields[j])
  }

  ghost predicate FinalFieldOf(nodes: seq<TN.Node>, index: map<string, nat>, s: Summary, i: nat, j: nat, f: MetadataField)
    requires Setting(nodes, index) && |s.comp| == |nodes| && i < |nodes| && j < |nodes[i].fields|
  {
    var r := nodes[i].fields[j].reference;
    && (r.kind != TN.ScalarRef ==> r.targetType in index)
    && f == FinalField(nodes[i].fields[j], Flag(nodes, index, s, i, r))
  }

  method FinalFields(nodes: seq<TN.Node>, index: map<string, nat>, s: Summary, i: nat) returns (fields: seq<MetadataField>)
    requires Setting(nodes, index) && |s.comp| == |nodes| && i < |nodes|
    ensures |fields| == |nodes[i].fields| && forall j :: 0 <= j < |fields| ==> FinalFieldOf(nodes, index, s, i, j, fields[j])
  {
    hide TN.Resolved, FinalField;
    fields := [];
    for j := 0 to |nodes[i].fields|
      invariant |fields| == j && forall k :: 0 <= k < j ==> FinalFieldOf(nodes, index, s, i, k, fields[k])
    {
      var r := nodes[i].fields[j].reference;
      if r.kind != TN.ScalarRef {
        TargetIndexed(nodes, index, i, j);
      }
      fields := fields + [FinalField(nodes[i].fields[j], Flag(nodes, index, s, i, r))];
    }
  }

  method FinalNodes(nodes: seq<TN.Node>, index: map<string, nat>, s: Summary) returns (out: Types)
    requires Setting(nodes, index) && |s.comp| == |nodes|
    ensures FinalOf(nodes, index, s, out)
  {
    hide TN.Resolved, FinalNodeOf;
    out := map[];
    for i := 0 to |nodes|
      invariant forall t :: t in out <==> t in index && index[t] < i
      invariant forall k :: 0 <= k < i ==> FinalNodeOf(nodes, index, s, k, out[nodes[k].name])
    {
      var fields := FinalFields(nodes, index, s, i);
      var n := nodes[i];
      var final := TypeNode(n.name, n.kind, n.nucLength, n.ucLength, n.timestamp, fields);
      MadeFinal(nodes, index, s, i, final);
      out := out[n.name := final];
    }
  }

  lemma MadeFinal(nodes: seq<TN.Node>, index: map<string, nat>, s: Summary, i: nat, final: TypeNode)
    requires Setting(nodes, index) && |s.comp| == |nodes| && i < |nodes|
    requires var n := nodes[i]; final == TypeNode(n.name, n.kind, n.nucLength, n.ucLength, n.timestamp, final.fields)
    requires |final.fields| == |nodes[i].fields| && forall j :: 0 <= j < |final.fields| ==> FinalFieldOf(nodes, index, s, i, j, final.fields[j])
    ensures FinalNodeOf(nodes, index, s, i, final)
  {
  }

  // ---- from indices to names and back ----

  ghost predicate Finalised(nodes: seq<TN.Node>, index: map<string, nat>, g: Graph, s: Summary, out: Types) {
    && Setting(nodes, index)
    && |s.comp| == |nodes|
    && Closed(g) && AdjacencyOf(nodes, index, g)
    && FinalOf(nodes, index, s, out)
  }

  lemma FieldPreserved(nodes: seq<TN.Node>, index: map<string, nat>, g: Graph, s: Summary, out: Types, i: nat, t: string)
    requires Finalised(nodes, index, g, s, out) && i < |nodes|
    ensures nodes[i].name in out && |out[nodes[i].name].fields| == |nodes[i].fields|
    ensures forall k :: 0 <= k < |nodes[i].fields| ==>
      (Refers(out[nodes[i].name].fields[k], t) <==> FieldRefers(nodes[i].fields[k], t))
  {
    hide TN.Resolved, AdjacencyOf;
    assert FinalNodeOf(nodes, index, s, i, out[nodes[i].name]);
    forall k | 0 <= k < |nodes[i].fields|
      ensures Refers(out[nodes[i].name].fields[k], t) <==> FieldRefers(nodes[i].fields[k], t)
    {
      assert FinalFieldOf(nodes, index, s, i, k, out[nodes[i].name].fields[k]);
    }
  }

  lemma EdgeByName(nodes: seq<TN.Node>, index: map<string, nat>, g: Graph, s: Summary, out: Types, i: nat, v: nat)
    requires Finalised(nodes, index, g, s, out) && i < |nodes| && v < |nodes|
    ensures Edge(g, i, v) <==> TypeEdge(out, nodes[i].name, nodes[v].name)
  {
    hide TN.Resolved, FinalNodeOf;
    var a, b := nodes[i].name, nodes[v].name;
    FieldPreserved(nodes, index, g, s, out, i, b);
    FieldPreserved(nodes, index, g, s, out, v, b);
    if Edge(g, i, v) {
      assert RefersByIndex(nodes, i, v);
      var k :| 0 <= k < |nodes[i].fields| && FieldRefers(nodes[i].fields[k], nodes[v].name);
      assert Refers(out[a].fields[k], b);
    }
    if TypeEdge(out, a, b) {
      var k :| 0 <= k < |out[a].fields| && Refers(out[a].fields[k], b);
      assert FieldRefers(nodes[i].fields[k], nodes[v].name);
      assert RefersByIndex(nodes, i, v);
    }
  }

  ghost function Names(nodes: seq<TN.Node>, p: seq<nat>): seq<string>
    requires forall i :: 0 <= i < |p| ==> p[i] < |nodes|
  {
    seq(|p|, i requires 0 <= i < |p| => nodes[p[i]].name)
  }

  ghost function Indices(index: map<string, nat>, q: seq<string>): seq<nat>
    requires forall i :: 0 <= i < |q| ==> q[i] in index
  {
    seq(|q|, i requires 0 <= i < |q| => index[q[i]])
  }

  lemma PathToNames(nodes: seq<TN.Node>, index: map<string, nat>, g: Graph, s: Summary, out: Types, p: seq<nat>)
    requires Finalised(nodes, index, g, s, out) && IsPath(g, p)
    ensures forall i :: 0 <= i < |p| ==> p[i] < |nodes|
    ensures TypePath(out, Names(nodes, p))
  {
    hide TN.Resolved, FinalNodeOf, TypeEdge;
    forall i | 0 <= i < |p|
      ensures p[i] < |nodes|
    {
      PathInRange(g, p, i);
    }
    var q := Names(nodes, p);
    forall i | 0 <= i < |q| - 1
      ensures TypeEdge(out, q[i], q[i + 1])
    {
      assert Edge(g, p[i], p[i + 1]);
      EdgeByName(nodes, index, g, s, out, p[i], p[i + 1]);
    }
    assert q[0] in index;
  }

  lemma PathToIndices(nodes: seq<TN.Node>, index: map<string, nat>, g: Graph, s: Summary, out: Types, q: seq<string>)
    requires Finalised(nodes, index, g, s, out) && TypePath(out, q)
    ensures forall i :: 0 <= i < |q| ==> q[i] in index
    ensures IsPath(g, Indices(index, q))
  {
    hide TN.Resolved, FinalNodeOf, AdjacencyOf;
    forall i | 0 <= i < |q|
      ensures q[i] in index
    {
      if i > 0 {
        assert TypeEdge(out, q[i - 1], q[i - 1 + 1]);
      }
    }
    IndicesPath(nodes, index, g, s, out, q);
  }

  lemma IndicesPath(nodes: seq<TN.Node>, index: map<string, nat>, g: Graph, s: Summary, out: Types, q: seq<string>)
    requires Finalised(nodes, index, g, s, out) && TypePath(out, q)
    requires forall i :: 0 <= i < |q| ==> q[i] in index
    ensures IsPath(g, Indices(index, q))
  {
    hide TN.Resolved, FinalNodeOf, TypeEdge;
    var p := Indices(index, q);
    forall i | 0 <= i < |p| - 1
      ensures Edge(g, p[i], p[i + 1])
    {
      assert TypeEdge(out, q[i], q[i + 1]);
      EdgeByName(nodes, index, g, s, out, p[i], p[i + 1]);
    }
  }

  lemma WalkToNames(nodes: seq<TN.Node>, index: map<string, nat>, g: Graph, s: Summary, out: Types, c: seq<nat>, k: nat)
    requires Finalised(nodes, index, g, s, out) && ClosedWalk(g, c) && k < |c| - 1
    ensures c[k] < |nodes| && c[k + 1] < |nodes| && OnTypeCycle(out, nodes[c[k]].name, nodes[c[k + 1]].name)
  {
    hide Finalised, TypePath, IsPath;
    PathToNames(nodes, index, g, s, out, c);
    assert TypeWalkOver(out, Names(nodes, c), k, nodes[c[k]].name, nodes[c[k + 1]].name);
  }

  lemma WalkToIndices(nodes: seq<TN.Node>, index: map<string, nat>, g: Graph, s: Summary, out: Types, q: seq<string>, k: nat, a: string, b: string)
    requires Finalised(nodes, index, g, s, out) && TypeWalkOver(out, q, k, a, b)
    ensures a in index && b in index && OnCycle(g, index[a], index[b])
  {
    hide Finalised, TypePath, IsPath;
    PathToIndices(nodes, index, g, s, out, q);
    var c := Indices(index, q);
    assert ClosedWalk(g, c) && c[k] == index[a] && c[k + 1] == index[b];
  }

  /** An edge lies on a cycle of indices exactly when it lies on a cycle of names. */
  lemma CycleByName(nodes: seq<TN.Node>, index: map<string, nat>, g: Graph, s: Summary, out: Types, i: nat, v: nat)
    requires Finalised(nodes, index, g, s, out) && i < |nodes| && v < |nodes|
    ensures OnCycle(g, i, v) <==> OnTypeCycle(out, nodes[i].name, nodes[v].name)
  {
    hide FinalOf, AdjacencyOf, TN.Resolved, TypePath, IsPath;
    if OnCycle(g, i, v) {
      var c, k :| ClosedWalk(g, c) && 0 <= k < |c| - 1 && c[k] == i && c[k + 1] == v;
      WalkToNames(nodes, index, g, s, out, c, k);
    }
    if OnTypeCycle(out, nodes[i].name, nodes[v].name) {
      var q, k :| TypeWalkOver(out, q, k, nodes[i].name, nodes[v].name);
      WalkToIndices(nodes, index, g, s, out, q, k, nodes[i].name, nodes[v].name);
    }
  }

  // ---- the flag means what it says ----

  /** Sharing a cyclic component with its target is, for a reference, the same as lying on a cycle. */
  lemma FlagExact(g: Graph, s: Summary, i: nat, v: nat)
    requires Closed(g) && SummaryOf(g, s) && Edge(g, i, v)
    ensures (s.comp[i] == s.comp[v] && s.comp[i] in s.cyclic) <==> OnCycle(g, i, v)
  {
    hide PredecessorClosed, ListsComponents, Reach, OnCycle;
    OnCycleIffReachBack(g, i, v);
    ReachEdge(g, i, v);
    if Reach(g, v, i) {
      assert Mutual(g, i, v);
      assert NodeOnCycle(g, i) by { BackEdgeCycle(g, i, v); }
      assert 0 <= s.comp[i] < |s.members|;
    }
    if s.comp[i] == s.comp[v] {
      assert Mutual(g, i, v);
    }
  }

  lemma BackEdgeCycle(g: Graph, u: nat, v: nat)
    requires Edge(g, u, v) && Reach(g, v, u)
    ensures NodeOnCycle(g, u)
  {
    var p :| PathFromTo(g, p, v, u);
    assert PathFromTo(g, [u, v], u, v);
    PathConcat(g, [u, v], p);
    var c := [u, v] + p[1..];
    assert ClosedWalk(g, c) && c[0] == u;
  }

  lemma FinalCyclicExact(nodes: seq<TN.Node>, index: map<string, nat>, g: Graph, s: Summary, out: Types)
    requires Finalised(nodes, index, g, s, out) && SummaryOf(g, s)
    ensures CyclicExact(out)
  {
    hide OnTypeCycle, OnCycle, SummaryOf, AdjacencyOf, TN.Resolved;
    forall a, k | a in out && 0 <= k < |out[a].fields| && out[a].fields[k].reference.kind != TN.ScalarRef
      ensures out[a].fields[k].reference.cyclic <==> OnTypeCycle(out, a, out[a].fields[k].reference.targetType)
    {
      FieldCyclicExact(nodes, index, g, s, out, index[a], k);
    }
  }

  lemma FieldCyclicExact(nodes: seq<TN.Node>, index: map<string, nat>, g: Graph, s: Summary, out: Types, i: nat, k: nat)
    requires Finalised(nodes, index, g, s, out) && SummaryOf(g, s)
    requires i < |nodes| && nodes[i].name in out && k < |out[nodes[i].name].fields|
    requires out[nodes[i].name].fields[k].reference.kind != TN.ScalarRef
    ensures out[nodes[i].name].fields[k].reference.cyclic <==> OnTypeCycle(out, nodes[i].name, out[nodes[i].name].fields[k].reference.targetType)
  {
    hide OnTypeCycle, OnCycle, PartitionInv, CyclicExactly, TN.Resolved;
    var f := nodes[i].fields[k];
    assert FinalFieldOf(nodes, index, s, i, k, out[nodes[i].name].fields[k]);
    TargetIndexed(nodes, index, i, k);
    var v := index[f.reference.targetType];
    assert FieldRefers(f, nodes[v].name);
    assert RefersByIndex(nodes, i, v);
    assert Edge(g, i, v);
    FlagExact(g, s, i, v);
    CycleByName(nodes, index, g, s, out, i, v);
  }

  // ---- cutting the flagged references leaves a bounded acyclic graph ----

  lemma DescentClimbs(nodes: seq<TN.Node>, index: map<string, nat>, g: Graph, s: Summary, out: Types, a: string, b: string)
    requires Finalised(nodes, index, g, s, out) && SummaryOf(g, s) && DescentStep(out, a, b)
    ensures a in index && b in index && Edge(g, index[a], index[b]) && 0 <= s.comp[index[a]] < s.comp[index[b]] < |s.members|
  {
    hide OnTypeCycle, OnCycle, TN.Resolved, ListsComponents, CyclicExactly;
    var k :| 0 <= k < |out[a].fields| && Refers(out[a].fields[k], b) && !out[a].fields[k].reference.cyclic;
    var i, v := index[a], index[b];
    assert TypeEdge(out, a, b);
    EdgeByName(nodes, index, g, s, out, i, v);
    FieldCyclicExact(nodes, index, g, s, out, i, k);
    CycleByName(nodes, index, g, s, out, i, v);
    NotOnCycleApart(g, s, i, v);
  }

  lemma NotOnCycleApart(g: Graph, s: Summary, i: nat, v: nat)
    requires Closed(g) && SummaryOf(g, s) && Edge(g, i, v) && !OnCycle(g, i, v)
    ensures v < |g| && 0 <= s.comp[i] < s.comp[v] < |s.members|
  {
    hide Reach;
    OnCycleIffReachBack(g, i, v);
    ReachInRange(g, i, i) by { ReachSelf(g, i); }
    assert v < |g|;
    assert !Mutual(g, i, v);
  }

  lemma DescentRanked(nodes: seq<TN.Node>, index: map<string, nat>, g: Graph, s: Summary, out: Types)
    requires Finalised(nodes, index, g, s, out) && SummaryOf(g, s)
    ensures exists rank :: Ranked(out, rank)
  {
    hide TN.Resolved, AdjacencyOf, SummaryOf, DescentStep;
    assert forall x :: 0 <= x < |nodes| ==> 0 <= s.comp[x] by { CompsNatural(g, s); }
    var rank: map<string, nat> := map a | a in index :: s.comp[index[a]];
    assert rank.Keys == out.Keys;
    forall a, b | DescentStep(out, a, b)
      ensures a in rank && b in rank && rank[a] < rank[b]
    {
      DescentClimbs(nodes, index, g, s, out, a, b);
    }
    assert Ranked(out, rank);
  }

  lemma CompsNatural(g: Graph, s: Summary)
    requires SummaryOf(g, s)
    ensures |s.comp| == |g| && forall x :: 0 <= x < |g| ==> 0 <= s.comp[x] < |s.members|
  {
  }

  ghost predicate DescentComps(index: map<string, nat>, s: Summary, p: seq<string>, q: seq<nat>) {
    |q| == |p| && forall i :: 0 <= i < |p| ==> p[i] in index && index[p[i]] < |s.comp| && q[i] == s.comp[index[p[i]]]
  }

  lemma DescentChain(nodes: seq<TN.Node>, index: map<string, nat>, g: Graph, s: Summary, out: Types, roots: seq<nat>, a: Dag, p: seq<string>) returns (q: seq<nat>)
    requires Finalised(nodes, index, g, s, out) && SummaryOf(g, s) && Descent(out, p)
    requires DepthOf(g, roots, s.comp, |s.members|, a, s.maximumDepth)
    ensures DescentComps(index, s, p, q) && Chain(a, q)
    ensures forall i, j :: 0 <= i < j < |q| ==> q[i] < q[j]
  {
    hide TN.Resolved, AdjacencyOf, DescentStep, PartitionInv, CyclicExactly, LongestChain, FinalNodeOf;
    q := [s.comp[index[p[0]]]];
    while |q| < |p|
      invariant 0 < |q| <= |p|
      invariant DescentComps(index, s, p[..|q|], q) && Chain(a, q)
      invariant forall i, j :: 0 <= i < j < |q| ==> q[i] < q[j]
    {
      var n := |q|;
      assert DescentStep(out, p[n - 1], p[n - 1 + 1]);
      DescentClimbs(nodes, index, g, s, out, p[n - 1], p[n]);
      assert p[..n][n - 1] == p[n - 1];
      var u, v := index[p[n - 1]], index[p[n]];
      assert Joined(g, s.comp, s.comp[u], s.comp[v]);
      var q' := q + [s.comp[v]];
      assert Chain(a, q') by { ChainExtends(a, q, s.comp[v]); }
      assert forall i :: 0 <= i < n ==> p[..n + 1][i] == p[..n][i];
      q := q';
    }
    assert p[..|q|] == p;
  }

  lemma ChainExtends(a: Dag, q: seq<nat>, d: nat)
    requires Chain(a, q) && q[|q| - 1] < |a| && d in a[q[|q| - 1]]
    ensures Chain(a, q + [d])
  {
    var r := q + [d];
    forall i | 0 <= i < |r| - 1
      ensures r[i] < |a| && r[i + 1] in a[r[i]]
    {
    }
  }

  lemma ChainsJoin(a: Dag, roots: set<nat>, p: seq<nat>, q: seq<nat>)
    requires RootChain(a, roots, p) && Chain(a, q) && p[|p| - 1] == q[0]
    ensures RootChain(a, roots, p + q[1..])
  {
    var r := p + q[1..];
    forall i | 0 <= i < |r| - 1
      ensures r[i] < |a| && r[i + 1] in a[r[i]]
    {
      if i >= |p| - 1 {
        assert r[i] == q[i - |p| + 1] && r[i + 1] == q[i - |p| + 2];
      }
    }
  }

  /** Components along a path from a root are below that root's component. */
  lemma {:induction false} PathBelow(g: Graph, roots: seq<nat>, comp: seq<int>, k: nat, a: Dag, m: nat, p: seq<nat>)
    requires Closed(g) && |comp| == |g| && DepthOf(g, roots, comp, k, a, m)
    requires IsPath(g, p) && p[0] in roots
    ensures p[|p| - 1] < |g| && Below(a, RootSet(comp, k, roots), comp[p[|p| - 1]])
    decreases |p|
  {
    hide Below, LongestChain;
    var rs := RootSet(comp, k, roots);
    if |p| == 1 {
      var i :| 0 <= i < |roots| && roots[i] == p[0];
      assert RootComponents(comp, k, roots)[i] == comp[p[0]];
      BelowRoot(a, rs, comp[p[0]]);
    } else {
      var q := p[..|p| - 1];
      PathInRange(g, p, |p| - 1);
      PathBelow(g, roots, comp, k, a, m, q);
      var u, v := p[|p| - 2], p[|p| - 1];
      assert Edge(g, p[|p| - 2], p[|p| - 2 + 1]);
      if comp[u] != comp[v] {
        assert Joined(g, comp, comp[u], comp[v]);
        BelowNext(a, rs, comp[u], comp[v]);
      }
    }
  }

  ghost predicate ReachedFrom(g: Graph, roots: seq<nat>, v: nat) {
    exists u :: u in roots && Reach(g, u, v)
  }

  lemma ReachedIsBelow(g: Graph, roots: seq<nat>, comp: seq<int>, k: nat, a: Dag, m: nat, v: nat)
    requires Closed(g) && |comp| == |g| && DepthOf(g, roots, comp, k, a, m)
    requires v < |g| && ReachedFrom(g, roots, v)
    ensures Below(a, RootSet(comp, k, roots), comp[v])
  {
    hide Below, LongestChain, RootSet;
    var u :| u in roots && Reach(g, u, v);
    var path :| PathFromTo(g, path, u, v);
    PathBelow(g, roots, comp, k, a, m, path);
  }

  lemma ChainBelowBounded(a: Dag, roots: set<nat>, m: nat, q: seq<nat>)
    requires LongestChain(a, roots, m) && Chain(a, q) && Below(a, roots, q[0])
    ensures |q| <= m
  {
    var n: nat :| ChainTo(a, roots, q[0], n);
    var c :| RootChain(a, roots, c) && c[|c| - 1] == q[0] && |c| == n;
    ChainsJoin(a, roots, c, q);
    assert |c + q[1..]| <= m;
  }

  /** A chain of unflagged references enters at most maximumDepth types, all different. */
  lemma DescentIsBounded(nodes: seq<TN.Node>, index: map<string, nat>, g: Graph, s: Summary, out: Types, roots: seq<nat>, a: Dag, p: seq<string>)
    requires Finalised(nodes, index, g, s, out) && SummaryOf(g, s) && Descent(out, p)
    requires DepthOf(g, roots, s.comp, |s.members|, a, s.maximumDepth)
    requires forall v :: 0 <= v < |g| ==> ReachedFrom(g, roots, v)
    ensures |p| <= s.maximumDepth && forall i, j :: 0 <= i < j < |p| ==> p[i] != p[j]
  {
    hide TN.Resolved, AdjacencyOf, SummaryOf, FinalOf, DescentStep, Condensed, Forward, LongestChain, Below, Chain, ReachedFrom, RootSet;
    CompsNatural(g, s);
    var q := DescentChain(nodes, index, g, s, out, roots, a, p);
    ReachedIsBelow(g, roots, s.comp, |s.members|, a, s.maximumDepth, index[p[0]]);
    ChainBelowBounded(a, RootSet(s.comp, |s.members|, roots), s.maximumDepth, q);
  }

  lemma AllDescentsBounded(nodes: seq<TN.Node>, index: map<string, nat>, g: Graph, s: Summary, out: Types, roots: seq<nat>, a: Dag)
    requires Finalised(nodes, index, g, s, out) && SummaryOf(g, s)
    requires DepthOf(g, roots, s.comp, |s.members|, a, s.maximumDepth)
    requires forall v :: 0 <= v < |g| ==> ReachedFrom(g, roots, v)
    ensures DescentBounded(out, s.maximumDepth)
  {
    hide Finalised, SummaryOf, DepthOf, Descent, ReachedFrom;
    forall p | Descent(out, p)
      ensures |p| <= s.maximumDepth && forall i, j :: 0 <= i < j < |p| ==> p[i] != p[j]
    {
      DescentIsBounded(nodes, index, g, s, out, roots, a, p);
    }
  }
}
