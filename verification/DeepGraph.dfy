/** A chain of structures, each holding the next: the graphs at which the depth cap of the consumers first shows. */
module DeepGraph {
  import opened TypeComponents
  import opened TypeGraph
  import opened GraphConsumers
  import TN = TypeNodes

  /** The i-th type's name: i + 1 letters. */
  function NameAt(i: nat): (s: string)
    ensures |s| == i + 1
  {
    seq(i + 1, _ => 'T')
  }

  function Holder(i: nat, n: nat): MetadataField {
    if i + 1 < n then MetadataField("NEXT", 1, NameAt(i + 1), "u", 0, 0, 1, 2, TypedReference(TN.StructureRef, "u", NameAt(i + 1), false))
    else MetadataField("NEXT", 1, "", "C", 0, 0, 1, 2, TypedReference(TN.ScalarRef, "C", "", false))
  }

  function TypeAt(i: nat, n: nat): TypeNode { TypeNode(NameAt(i), TN.StructureNode, 1, 2, "", [Holder(i, n)]) }

  function ChainNames(n: nat): seq<string> { seq(n, i requires 0 <= i < n => NameAt(i)) }

  function ChainTypes(n: nat): Types { map a | a in ChainNames(n) :: TypeAt(|a| - 1, n) }

  function ChainGraph(n: nat): Normal { Normal(ChainTypes(n), [NameAt(0)], [], n) }

  lemma TypeOf(n: nat, a: string)
    requires a in ChainTypes(n)
    ensures 1 <= |a| <= n && a == NameAt(|a| - 1) && ChainTypes(n)[a] == TypeAt(|a| - 1, n)
  {
    var i :| 0 <= i < n && ChainNames(n)[i] == a;
  }

  lemma NamedAt(n: nat, i: nat)
    requires i < n
    ensures NameAt(i) in ChainTypes(n) && ChainTypes(n)[NameAt(i)] == TypeAt(i, n)
  {
    assert ChainNames(n)[i] == NameAt(i);
  }

  /** Every edge leads to the next type. */
  lemma EdgeLengthens(n: nat, a: string, b: string)
    requires TypeEdge(ChainTypes(n), a, b)
    ensures |b| == |a| + 1
  {
    hide ChainTypes, NameAt;
    TypeOf(n, a);
  }

  lemma {:induction false} PathLengthens(n: nat, p: seq<string>, j: nat)
    requires TypePath(ChainTypes(n), p) && j < |p|
    ensures |p[j]| == |p[0]| + j && p[j] in ChainTypes(n)
    decreases j
  {
    hide ChainTypes;
    if j > 0 {
      PathLengthens(n, p, j - 1);
      assert TypeEdge(ChainTypes(n), p[j - 1], p[j - 1 + 1]);
      EdgeLengthens(n, p[j - 1], p[j]);
    }
  }

  lemma DescentIsPath(nodes: Types, p: seq<string>)
    requires Descent(nodes, p)
    ensures TypePath(nodes, p)
  {
    forall i | 0 <= i < |p| - 1 ensures TypeEdge(nodes, p[i], p[i + 1]) { assert DescentStep(nodes, p[i], p[i + 1]); }
  }

  lemma ChainShape(n: nat)
    ensures var nodes := ChainTypes(n);
            && (forall a :: a in nodes ==> nodes[a].name == a)
            && Sound(nodes)
  {
    hide ChainTypes, NameAt;
    var nodes := ChainTypes(n);
    forall a | a in nodes ensures 1 <= |a| <= n && nodes[a] == TypeAt(|a| - 1, n) && a == NameAt(|a| - 1) { TypeOf(n, a); }
    forall a, k | a in nodes && 0 <= k < |nodes[a].fields| && nodes[a].fields[k].reference.kind != TN.ScalarRef
      ensures nodes[a].fields[k].reference.targetType in nodes
      ensures TN.KindMatches(nodes[a].fields[k].reference.kind, nodes[nodes[a].fields[k].reference.targetType].kind)
    {
      NamedAt(n, |a|);
    }
  }

  lemma ChainHasNoCycle(n: nat)
    ensures CyclicExact(ChainTypes(n))
  {
    hide ChainTypes, NameAt;
    var nodes := ChainTypes(n);
    forall a, k | a in nodes && 0 <= k < |nodes[a].fields| && nodes[a].fields[k].reference.kind != TN.ScalarRef
      ensures nodes[a].fields[k].reference.cyclic <==> OnTypeCycle(nodes, a, nodes[a].fields[k].reference.targetType)
    {
      TypeOf(n, a);
      var b := nodes[a].fields[k].reference.targetType;
      if OnTypeCycle(nodes, a, b) {
        var c, i :| TypeWalkOver(nodes, c, i, a, b);
        PathLengthens(n, c, |c| - 1);
        assert false;
      }
    }
  }

  lemma ChainDescents(n: nat)
    ensures DescentBounded(ChainTypes(n), n)
  {
    hide ChainTypes, NameAt, Descent;
    var nodes := ChainTypes(n);
    forall p | Descent(nodes, p)
      ensures |p| <= n && forall i, j :: 0 <= i < j < |p| ==> p[i] != p[j]
    {
      DescentIsPath(nodes, p);
      PathLengthens(n, p, 0);
      TypeOf(n, p[0]);
      PathLengthens(n, p, |p| - 1);
      TypeOf(n, p[|p| - 1]);
      forall i, j | 0 <= i < j < |p| ensures p[i] != p[j] {
        PathLengthens(n, p, i);
        PathLengthens(n, p, j);
      }
    }
  }

  /** The first names in order, a descent from the first type. */
  lemma ChainIsDescent(n: nat)
    requires n > 0
    ensures DescentFrom(ChainTypes(n), NameAt(0), ChainNames(n))
  {
    hide ChainTypes, NameAt;
    var (nodes, p) := (ChainTypes(n), ChainNames(n));
    NamedAt(n, 0);
    forall i | 0 <= i < |p| - 1 ensures DescentStep(nodes, p[i], p[i + 1]) {
      NamedAt(n, i);
      NamedAt(n, i + 1);
      assert Refers(nodes[p[i]].fields[0], p[i + 1]);
    }
  }

  lemma ChainIsReached(n: nat)
    requires n > 0
    ensures RootsReachAll(ChainTypes(n), [NameAt(0)])
  {
    hide ChainTypes, NameAt, Descent;
    var (nodes, all) := (ChainTypes(n), ChainNames(n));
    ChainIsDescent(n);
    DescentIsPath(nodes, all);
    forall a | a in nodes ensures exists p :: TypePathFrom(nodes, p, [NameAt(0)], a) {
      TypeOf(n, a);
      var p := all[..|a|];
      assert forall i :: 0 <= i < |p| - 1 ==> TypeEdge(nodes, all[i], all[i + 1]);
      assert TypePathFrom(nodes, p, [NameAt(0)], a);
    }
  }

  lemma ChainRanked(n: nat) returns (rank: map<string, nat>)
    ensures Ranked(ChainTypes(n), rank)
  {
    hide ChainTypes, NameAt;
    var nodes := ChainTypes(n);
    rank := map a | a in nodes :: |a|;
    forall a, b | DescentStep(nodes, a, b) ensures rank[a] < rank[b] {
      EdgeLengthens(n, a, b);
    }
  }

  lemma ChainIsNormalised(n: nat)
    requires n > 0
    ensures Normalised(ChainGraph(n))
  {
    hide ChainTypes, NameAt, ReferencesResolve, TablesAreLines, FieldNamesDistinct, CyclicExact, DescentBounded, RootsReachAll, Ranked;
    ChainShape(n);
    ChainHasNoCycle(n);
    ChainDescents(n);
    ChainIsReached(n);
    var rank := ChainRanked(n);
  }

  lemma ChainLength(n: nat, m: nat)
    requires n > 0
    ensures ChainsWithin(ChainTypes(n), NameAt(0), m) <==> n <= m
  {
    hide ChainTypes, NameAt, Descent;
    ChainIsDescent(n);
    ChainDescents(n);
  }

  /** Of 34 structures the schema shows 33. */
  lemma SchemaIsCut() returns (rank: map<string, nat>, bound: nat)
    ensures Normalised(ChainGraph(34)) && Renderable(ChainTypes(34), rank, bound) && NameAt(0) in ChainTypes(34)
    ensures CappedNode(ChainTypes(34), rank, bound, NameAt(0), 0) != NodeSchema(ChainTypes(34), rank, bound, NameAt(0))
  {
    hide ChainTypes, NameAt, Normalised, Renderable, ChainsWithin, ChainNames;
    ChainIsNormalised(34);
    rank, bound := NormalisedRenders(ChainGraph(34));
    NamedAt(34, 0);
    ChainLength(34, 33);
    CapHarmlessIff(ChainTypes(34), rank, bound, NameAt(0));
  }

  /** Of 33 structures in the rows of a table the schema shows all, and a value nested through them is refused. */
  lemma SchemaPromisesTooMuch(scalar: ScalarCoercion) returns (rank: map<string, nat>, bound: nat)
    ensures Normalised(ChainGraph(33)) && Renderable(ChainTypes(33), rank, bound) && NameAt(0) in ChainTypes(33)
    ensures CappedParam(ChainTypes(33), rank, bound, true, NameAt(0)) == ParamSchema(ChainTypes(33), rank, bound, true, NameAt(0))
    ensures !CapUnseen(ChainTypes(33), scalar, true, NameAt(0))
  {
    hide ChainTypes, NameAt, Normalised, Renderable, ChainsWithin, ChainNames, DescentFrom, CapUnseen;
    ChainIsNormalised(33);
    rank, bound := NormalisedRenders(ChainGraph(33));
    NamedAt(33, 0);
    ChainLength(33, 33);
    ChainIsDescent(33);
    LengthOfNames(33);
    SchemaOutrunsCoercion(ChainTypes(33), rank, bound, scalar, NameAt(0), ChainNames(33));
  }

  lemma LengthOfNames(n: nat)
    ensures |ChainNames(n)| == n
  {
  }
}
