/** Consumers of a normalised graph: JSON-Schema rendering and input coercion.
    Both stop at references flagged cyclic and at a depth cap; the flags alone
    make them terminate, and the cap is exactly a bound on chains of types. */
module GraphConsumers {
  import opened TypeComponents
  import opened TypeGraph
  import TN = TypeNodes

  const MAX_GRAPH_SCHEMA_DEPTH := 32

  datatype Schema =
    | ScalarSchema(internalType: string, characters: nat)
    | ArraySchema(description: string, items: Schema)
    | ObjectSchema(description: string, properties: map<string, Schema>)
    | Stub(kind: TN.RefKind, description: string, cyclic: bool)

  /** What rendering needs of a graph: references resolve, tables are single unnamed lines, and the ranks climb. */
  ghost predicate Renderable(nodes: Types, rank: map<string, nat>, bound: nat) {
    && ReferencesResolve(nodes)
    && TablesAreLines(nodes)
    && FieldNamesDistinct(nodes)
    && Ranked(nodes, rank)
    && forall a :: a in rank ==> rank[a] <= bound
  }

  lemma StepDown(nodes: Types, rank: map<string, nat>, bound: nat, a: string, k: nat)
    requires Renderable(nodes, rank, bound) && a in nodes && k < |nodes[a].fields|
    requires nodes[a].fields[k].reference.kind != TN.ScalarRef && !nodes[a].fields[k].reference.cyclic
    ensures nodes[a].fields[k].reference.targetType in nodes && DescentStep(nodes, a, nodes[a].fields[k].reference.targetType)
    ensures rank[a] < rank[nodes[a].fields[k].reference.targetType]
  {
    assert Refers(nodes[a].fields[k], nodes[a].fields[k].reference.targetType);
  }

  function StubOf(f: MetadataField): Schema {
    Stub(f.reference.kind, f.reference.targetType, f.reference.cyclic)
  }

  // ---- rendering without a cap ----

  function NodeSchema(nodes: Types, ghost rank: map<string, nat>, ghost bound: nat, a: string): Schema
    requires Renderable(nodes, rank, bound) && a in nodes
    decreases bound - rank[a], 2, 0
  {
    if nodes[a].kind == TN.TableNode then ArraySchema(nodes[a].name, FieldSchema(nodes, rank, bound, a, 0))
    else ObjectSchema(nodes[a].name, PropertySchemas(nodes, rank, bound, a, |nodes[a].fields|))
  }

  function PropertySchemas(nodes: Types, ghost rank: map<string, nat>, ghost bound: nat, a: string, k: nat): (m: map<string, Schema>)
    requires Renderable(nodes, rank, bound) && a in nodes && k <= |nodes[a].fields|
    decreases bound - rank[a], 1, k
  {
    if k == 0 then map[]
    else PropertySchemas(nodes, rank, bound, a, k - 1)[nodes[a].fields[k - 1].name := FieldSchema(nodes, rank, bound, a, k - 1)]
  }

  function FieldSchema(nodes: Types, ghost rank: map<string, nat>, ghost bound: nat, a: string, k: nat): Schema
    requires Renderable(nodes, rank, bound) && a in nodes && k < |nodes[a].fields|
    decreases bound - rank[a], 0, 0
  {
    var f := nodes[a].fields[k];
    if f.reference.kind == TN.ScalarRef then ScalarSchema(f.internalType, f.ucLength / 2)
    else if f.reference.targetType !in nodes || f.reference.cyclic then StubOf(f)
    else
      StepDown(nodes, rank, bound, a, k);
      NodeSchema(nodes, rank, bound, f.reference.targetType)
  }

  // ---- rendering with the cap ----

  function CappedNode(nodes: Types, ghost rank: map<string, nat>, ghost bound: nat, a: string, depth: nat): Schema
    requires Renderable(nodes, rank, bound) && a in nodes
    decreases bound - rank[a], 2, 0
  {
    if nodes[a].kind == TN.TableNode then ArraySchema(nodes[a].name, CappedLine(nodes, rank, bound, a, depth + 1))
    else ObjectSchema(nodes[a].name, CappedProperties(nodes, rank, bound, a, |nodes[a].fields|, depth + 1))
  }

  /** A line is its single unnamed field; anything else would be rendered as a node. */
  function CappedLine(nodes: Types, ghost rank: map<string, nat>, ghost bound: nat, a: string, depth: nat): Schema
    requires Renderable(nodes, rank, bound) && a in nodes && nodes[a].kind == TN.TableNode
    decreases bound - rank[a], 1, 0
  {
    CappedField(nodes, rank, bound, a, 0, depth)
  }

  function CappedProperties(nodes: Types, ghost rank: map<string, nat>, ghost bound: nat, a: string, k: nat, depth: nat): (m: map<string, Schema>)
    requires Renderable(nodes, rank, bound) && a in nodes && k <= |nodes[a].fields|
    decreases bound - rank[a], 1, k
  {
    if k == 0 then map[]
    else CappedProperties(nodes, rank, bound, a, k - 1, depth)[nodes[a].fields[k - 1].name := CappedField(nodes, rank, bound, a, k - 1, depth)]
  }

  function CappedField(nodes: Types, ghost rank: map<string, nat>, ghost bound: nat, a: string, k: nat, depth: nat): Schema
    requires Renderable(nodes, rank, bound) && a in nodes && k < |nodes[a].fields|
    decreases bound - rank[a], 0, 0
  {
    var f := nodes[a].fields[k];
    if f.reference.kind == TN.ScalarRef then ScalarSchema(f.internalType, f.ucLength / 2)
    else if f.reference.targetType !in nodes || f.reference.cyclic || depth > MAX_GRAPH_SCHEMA_DEPTH then StubOf(f)
    else
      StepDown(nodes, rank, bound, a, k);
      CappedNode(nodes, rank, bound, f.reference.targetType, depth)
  }

  // ---- the cap against the chains of types ----

  ghost predicate DescentFrom(nodes: Types, a: string, p: seq<string>) {
    Descent(nodes, p) && p[0] == a
  }

  ghost predicate ChainsWithin(nodes: Types, a: string, n: int) {
    forall p :: DescentFrom(nodes, a, p) ==> |p| <= n
  }

  lemma ChainsWithinStep(nodes: Types, a: string, b: string, n: int)
    requires ChainsWithin(nodes, a, n) && DescentStep(nodes, a, b)
    ensures ChainsWithin(nodes, b, n - 1) && n >= 2
  {
    forall p | DescentFrom(nodes, b, p)
      ensures |p| <= n - 1
    {
      PrependStep(nodes, a, p);
    }
    assert DescentFrom(nodes, b, [b]);
    PrependStep(nodes, a, [b]);
  }

  lemma PrependStep(nodes: Types, a: string, p: seq<string>)
    requires Descent(nodes, p) && DescentStep(nodes, a, p[0])
    ensures DescentFrom(nodes, a, [a] + p)
  {
    var q := [a] + p;
    forall i | 0 <= i < |q| - 1
      ensures DescentStep(nodes, q[i], q[i + 1])
    {
      if i > 0 {
        assert DescentStep(nodes, p[i - 1], p[i - 1 + 1]);
      }
    }
  }

  lemma SplitDescent(nodes: Types, p: seq<string>)
    requires Descent(nodes, p) && |p| >= 2
    ensures DescentStep(nodes, p[0], p[1]) && DescentFrom(nodes, p[1], p[1..])
  {
    assert DescentStep(nodes, p[0], p[0 + 1]);
    var q := p[1..];
    forall i | 0 <= i < |q| - 1
      ensures DescentStep(nodes, q[i], q[i + 1])
    {
      assert DescentStep(nodes, p[i + 1], p[i + 1 + 1]);
    }
  }

  lemma {:induction false} NodeUncapped(nodes: Types, rank: map<string, nat>, bound: nat, a: string, depth: nat)
    requires Renderable(nodes, rank, bound) && a in nodes
    requires ChainsWithin(nodes, a, MAX_GRAPH_SCHEMA_DEPTH + 1 - depth)
    ensures CappedNode(nodes, rank, bound, a, depth) == NodeSchema(nodes, rank, bound, a)
    decreases bound - rank[a], 2, 0
  {
    hide ChainsWithin;
    if nodes[a].kind == TN.TableNode {
      FieldUncapped(nodes, rank, bound, a, 0, depth + 1);
    } else {
      PropertiesUncapped(nodes, rank, bound, a, |nodes[a].fields|, depth + 1);
    }
  }

  lemma {:induction false} PropertiesUncapped(nodes: Types, rank: map<string, nat>, bound: nat, a: string, k: nat, depth: nat)
    requires Renderable(nodes, rank, bound) && a in nodes && k <= |nodes[a].fields|
    requires ChainsWithin(nodes, a, MAX_GRAPH_SCHEMA_DEPTH + 2 - depth)
    ensures CappedProperties(nodes, rank, bound, a, k, depth) == PropertySchemas(nodes, rank, bound, a, k)
    decreases bound - rank[a], 1, k
  {
    hide ChainsWithin;
    if k > 0 {
      PropertiesUncapped(nodes, rank, bound, a, k - 1, depth);
      FieldUncapped(nodes, rank, bound, a, k - 1, depth);
    }
  }

  lemma {:induction false} FieldUncapped(nodes: Types, rank: map<string, nat>, bound: nat, a: string, k: nat, depth: nat)
    requires Renderable(nodes, rank, bound) && a in nodes && k < |nodes[a].fields|
    requires ChainsWithin(nodes, a, MAX_GRAPH_SCHEMA_DEPTH + 2 - depth)
    ensures CappedField(nodes, rank, bound, a, k, depth) == FieldSchema(nodes, rank, bound, a, k)
    decreases bound - rank[a], 0, 0
  {
    hide ChainsWithin;
    var f := nodes[a].fields[k];
    if f.reference.kind != TN.ScalarRef && !f.reference.cyclic {
      StepDown(nodes, rank, bound, a, k);
      ChainsWithinStep(nodes, a, f.reference.targetType, MAX_GRAPH_SCHEMA_DEPTH + 2 - depth);
      NodeUncapped(nodes, rank, bound, f.reference.targetType, depth);
    }
  }

  lemma {:induction false} PropertyAt(nodes: Types, rank: map<string, nat>, bound: nat, a: string, n: nat, k: nat, depth: nat)
    requires Renderable(nodes, rank, bound) && a in nodes && k < n <= |nodes[a].fields|
    ensures nodes[a].fields[k].name in CappedProperties(nodes, rank, bound, a, n, depth)
    ensures CappedProperties(nodes, rank, bound, a, n, depth)[nodes[a].fields[k].name] == CappedField(nodes, rank, bound, a, k, depth)
    ensures nodes[a].fields[k].name in PropertySchemas(nodes, rank, bound, a, n)
    ensures PropertySchemas(nodes, rank, bound, a, n)[nodes[a].fields[k].name] == FieldSchema(nodes, rank, bound, a, k)
    decreases n
  {
    if k < n - 1 {
      PropertyAt(nodes, rank, bound, a, n - 1, k, depth);
      assert nodes[a].fields[k].name != nodes[a].fields[n - 1].name;
    }
  }

  /** A chain of more than 33 types from a shows in the rendering of a: the cap replaced part of it by a stub. */
  lemma {:induction false} LongChainShows(nodes: Types, rank: map<string, nat>, bound: nat, a: string, depth: nat, p: seq<string>)
    requires Renderable(nodes, rank, bound) && a in nodes
    requires DescentFrom(nodes, a, p) && depth <= MAX_GRAPH_SCHEMA_DEPTH && |p| > MAX_GRAPH_SCHEMA_DEPTH + 1 - depth
    ensures CappedNode(nodes, rank, bound, a, depth) != NodeSchema(nodes, rank, bound, a)
    decreases bound - rank[a]
  {
    SplitDescent(nodes, p);
    var b := p[1];
    var k :| 0 <= k < |nodes[a].fields| && Refers(nodes[a].fields[k], b) && !nodes[a].fields[k].reference.cyclic;
    if depth + 1 <= MAX_GRAPH_SCHEMA_DEPTH {
      LongChainShows(nodes, rank, bound, b, depth + 1, p[1..]);
    }
    assert CappedField(nodes, rank, bound, a, k, depth + 1) != FieldSchema(nodes, rank, bound, a, k);
    if nodes[a].kind != TN.TableNode {
      PropertyAt(nodes, rank, bound, a, |nodes[a].fields|, k, depth + 1);
    }
  }

  /** The cap leaves the rendering of a type untouched exactly when no chain of unflagged references from it has more than 33 types. */
  lemma CapHarmlessIff(nodes: Types, rank: map<string, nat>, bound: nat, a: string)
    requires Renderable(nodes, rank, bound) && a in nodes
    ensures CappedNode(nodes, rank, bound, a, 0) == NodeSchema(nodes, rank, bound, a) <==> ChainsWithin(nodes, a, MAX_GRAPH_SCHEMA_DEPTH + 1)
  {
    if ChainsWithin(nodes, a, MAX_GRAPH_SCHEMA_DEPTH + 1) {
      NodeUncapped(nodes, rank, bound, a, 0);
    } else {
      var p :| DescentFrom(nodes, a, p) && |p| > MAX_GRAPH_SCHEMA_DEPTH + 1;
      LongChainShows(nodes, rank, bound, a, 0, p);
    }
  }

  // ---- a whole parameter ----

  /** A node that stands for a table of its one unnamed field. */
  predicate IsLine(node: TypeNode) { |node.fields| == 1 && node.fields[0].name == "" }

  /** A table parameter's rows start one level above its type's fields. */
  function ParamSchema(nodes: Types, ghost rank: map<string, nat>, ghost bound: nat, table: bool, a: string): Schema
    requires Renderable(nodes, rank, bound) && a in nodes
  {
    if !table then NodeSchema(nodes, rank, bound, a)
    else ArraySchema(nodes[a].name, if IsLine(nodes[a]) then FieldSchema(nodes, rank, bound, a, 0) else NodeSchema(nodes, rank, bound, a))
  }

  function CappedParam(nodes: Types, ghost rank: map<string, nat>, ghost bound: nat, table: bool, a: string): Schema
    requires Renderable(nodes, rank, bound) && a in nodes
  {
    if !table then CappedNode(nodes, rank, bound, a, 0)
    else ArraySchema(nodes[a].name, if IsLine(nodes[a]) then CappedField(nodes, rank, bound, a, 0, 0) else CappedNode(nodes, rank, bound, a, 0))
  }

  /** How many types in a row the schema of a parameter can show. */
  function SchemaReach(node: TypeNode, table: bool): nat {
    if table && IsLine(node) then MAX_GRAPH_SCHEMA_DEPTH + 2 else MAX_GRAPH_SCHEMA_DEPTH + 1
  }

  lemma LongLineShows(nodes: Types, rank: map<string, nat>, bound: nat, a: string, p: seq<string>)
    requires Renderable(nodes, rank, bound) && a in nodes && IsLine(nodes[a])
    requires DescentFrom(nodes, a, p) && |p| > MAX_GRAPH_SCHEMA_DEPTH + 2
    ensures CappedField(nodes, rank, bound, a, 0, 0) != FieldSchema(nodes, rank, bound, a, 0)
  {
    SplitDescent(nodes, p);
    LongChainShows(nodes, rank, bound, p[1], 0, p[1..]);
  }

  /** The schema of a parameter is cut somewhere exactly when a chain of unflagged references outruns its reach. */
  lemma ParamCapIff(nodes: Types, rank: map<string, nat>, bound: nat, table: bool, a: string)
    requires Renderable(nodes, rank, bound) && a in nodes
    ensures CappedParam(nodes, rank, bound, table, a) == ParamSchema(nodes, rank, bound, table, a)
            <==> ChainsWithin(nodes, a, SchemaReach(nodes[a], table))
  {
    hide Renderable;
    CapHarmlessIff(nodes, rank, bound, a);
    if table && IsLine(nodes[a]) {
      if ChainsWithin(nodes, a, MAX_GRAPH_SCHEMA_DEPTH + 2) {
        FieldUncapped(nodes, rank, bound, a, 0, 0);
      } else {
        var p :| DescentFrom(nodes, a, p) && |p| > MAX_GRAPH_SCHEMA_DEPTH + 2;
        LongLineShows(nodes, rank, bound, a, p);
      }
    }
  }

  lemma RankBound(rank: map<string, nat>) returns (bound: nat)
    ensures forall a :: a in rank ==> rank[a] <= bound
  {
    bound := 0;
    var rest := rank.Keys;
    while rest != {}
      invariant forall a :: a in rank && a !in rest ==> rank[a] <= bound
      decreases rest
    {
      var a :| a in rest;
      rest := rest - {a};
      if a in rank && rank[a] > bound {
        bound := rank[a];
      }
    }
  }

  /** Every normalised graph can be rendered without a cap, and up to depth 33 the cap changes nothing. */
  lemma NormalisedRenders(n: Normal) returns (rank: map<string, nat>, bound: nat)
    requires Normalised(n)
    ensures Renderable(n.nodes, rank, bound)
    ensures n.maximumDepth <= MAX_GRAPH_SCHEMA_DEPTH + 1 ==>
      forall a :: a in n.nodes ==> CappedNode(n.nodes, rank, bound, a, 0) == NodeSchema(n.nodes, rank, bound, a)
  {
    hide ReferencesResolve, TablesAreLines, FieldNamesDistinct, CyclicExact, RootsReachAll;
    rank :| Ranked(n.nodes, rank);
    bound := RankBound(rank);
    if n.maximumDepth <= MAX_GRAPH_SCHEMA_DEPTH + 1 {
      forall a | a in n.nodes
        ensures CappedNode(n.nodes, rank, bound, a, 0) == NodeSchema(n.nodes, rank, bound, a)
      {
        NodeUncapped(n.nodes, rank, bound, a, 0);
      }
    }
  }

  // ---- input coercion ----

  datatype Value = Obj(members: map<string, Value>) | Arr(elems: seq<Value>) | Prim(text: string)

  /** How a scalar of an internal type is coerced; supplied by the caller. */
  type ScalarCoercion = (string, Value) -> Outcome<Value>

  /** Index of the field of that name, or the number of fields when there is none. */
  function FindField(fields: seq<MetadataField>, name: string): (k: nat)
    ensures k <= |fields| && (k < |fields| ==> fields[k].name == name)
    ensures k == |fields| ==> forall i :: 0 <= i < |fields| ==> fields[i].name != name
  {
    if fields == [] then 0
    else if fields[|fields| - 1].name == name then |fields| - 1
    else
      var k := FindField(fields[..|fields| - 1], name);
      if k == |fields| - 1 then |fields| else k
  }

  function CoerceTable(nodes: Types, scalar: ScalarCoercion, capped: bool, a: string, v: Value, depth: nat): (r: Outcome<Value>)
    requires a in nodes
    ensures r.Ok? ==> v.Arr? && r.value.Arr? && |r.value.elems| == |v.elems|
    decreases v, 0
  {
    if capped && depth > MAX_GRAPH_SCHEMA_DEPTH then Rejected("DEPTH")
    else if !v.Arr? then Rejected("NOT_A_LIST")
    else
      var rows := seq(|v.elems|, i requires 0 <= i < |v.elems| => CoerceLine(nodes, scalar, capped, a, v.elems[i], depth + 1));
      if exists i :: 0 <= i < |rows| && rows[i].Rejected? then Rejected("ROW")
      else Ok(Arr(seq(|rows|, i requires 0 <= i < |rows| => rows[i].value)))
  }

  function CoerceLine(nodes: Types, scalar: ScalarCoercion, capped: bool, a: string, v: Value, depth: nat): Outcome<Value>
    requires a in nodes
    decreases v, 2
  {
    if IsLine(nodes[a]) then CoerceReference(nodes, scalar, capped, nodes[a].fields[0], v, depth)
    else CoerceStructure(nodes, scalar, capped, a, v, depth)
  }

  function CoerceStructure(nodes: Types, scalar: ScalarCoercion, capped: bool, a: string, v: Value, depth: nat): (r: Outcome<Value>)
    requires a in nodes
    ensures r.Ok? ==> v.Obj? && r.value.Obj? && r.value.members.Keys == v.members.Keys
    decreases v, 0
  {
    if capped && depth > MAX_GRAPH_SCHEMA_DEPTH then Rejected("DEPTH")
    else if !v.Obj? then Rejected("NOT_AN_OBJECT")
    else
      var coerced := map k | k in v.members ::
        var i := FindField(nodes[a].fields, k);
        if i == |nodes[a].fields| then Ok(v.members[k])
        else CoerceReference(nodes, scalar, capped, nodes[a].fields[i], v.members[k], depth + 1);
      if exists k :: k in coerced && coerced[k].Rejected? then Rejected("MEMBER")
      else Ok(Obj(map k | k in coerced :: coerced[k].value))
  }

  function CoerceReference(nodes: Types, scalar: ScalarCoercion, capped: bool, f: MetadataField, v: Value, depth: nat): Outcome<Value>
    decreases v, 1
  {
    if f.reference.kind == TN.ScalarRef then scalar(f.internalType, v)
    else if f.reference.targetType !in nodes || f.reference.cyclic then Ok(v)
    else if nodes[f.reference.targetType].kind == TN.TableNode then CoerceTable(nodes, scalar, capped, f.reference.targetType, v, depth)
    else CoerceStructure(nodes, scalar, capped, f.reference.targetType, v, depth)
  }

  /** The types a coercion of a at this depth may still enter all lie within the cap. */
  ghost predicate Fits(nodes: Types, a: string, depth: nat) {
    ChainsWithin(nodes, a, MAX_GRAPH_SCHEMA_DEPTH + 1 - depth)
  }

  lemma FitsHere(nodes: Types, a: string, depth: nat)
    requires Fits(nodes, a, depth) && a in nodes
    ensures depth <= MAX_GRAPH_SCHEMA_DEPTH
  {
    assert DescentFrom(nodes, a, [a]);
  }

  /** The same for a list of rows of a, each of them one level deeper unless a is a line. */
  ghost predicate RowsFit(nodes: Types, a: string, depth: nat)
    requires a in nodes
  {
    if IsLine(nodes[a]) then Fits(nodes, a, depth) else Fits(nodes, a, depth + 1)
  }

  lemma {:induction false} TableUncapped(nodes: Types, scalar: ScalarCoercion, a: string, v: Value, depth: nat)
    requires ReferencesResolve(nodes) && TablesAreLines(nodes)
    requires a in nodes && RowsFit(nodes, a, depth)
    ensures CoerceTable(nodes, scalar, true, a, v, depth) == CoerceTable(nodes, scalar, false, a, v, depth)
    decreases v, 0
  {
    hide Fits, ReferencesResolve, TablesAreLines;
    FitsHere(nodes, a, if IsLine(nodes[a]) then depth else depth + 1);
    if v.Arr? {
      forall i | 0 <= i < |v.elems|
        ensures CoerceLine(nodes, scalar, true, a, v.elems[i], depth + 1) == CoerceLine(nodes, scalar, false, a, v.elems[i], depth + 1)
      {
        if IsLine(nodes[a]) {
          ReferenceUncapped(nodes, scalar, a, 0, v.elems[i], depth);
        } else {
          StructureUncapped(nodes, scalar, a, v.elems[i], depth + 1);
        }
      }
      assert seq(|v.elems|, i requires 0 <= i < |v.elems| => CoerceLine(nodes, scalar, true, a, v.elems[i], depth + 1))
          == seq(|v.elems|, i requires 0 <= i < |v.elems| => CoerceLine(nodes, scalar, false, a, v.elems[i], depth + 1));
    }
  }

  lemma {:induction false} StructureUncapped(nodes: Types, scalar: ScalarCoercion, a: string, v: Value, depth: nat)
    requires ReferencesResolve(nodes) && TablesAreLines(nodes)
    requires a in nodes && Fits(nodes, a, depth)
    ensures CoerceStructure(nodes, scalar, true, a, v, depth) == CoerceStructure(nodes, scalar, false, a, v, depth)
    decreases v, 0
  {
    hide Fits, ReferencesResolve, TablesAreLines;
    FitsHere(nodes, a, depth);
    if v.Obj? {
      forall k | k in v.members && FindField(nodes[a].fields, k) < |nodes[a].fields|
        ensures var f := nodes[a].fields[FindField(nodes[a].fields, k)];
          CoerceReference(nodes, scalar, true, f, v.members[k], depth + 1) == CoerceReference(nodes, scalar, false, f, v.members[k], depth + 1)
      {
        ReferenceUncapped(nodes, scalar, a, FindField(nodes[a].fields, k), v.members[k], depth);
      }
      assert MembersOf(nodes, scalar, true, a, v, depth) == MembersOf(nodes, scalar, false, a, v, depth);
    }
  }

  function MembersOf(nodes: Types, scalar: ScalarCoercion, capped: bool, a: string, v: Value, depth: nat): map<string, Outcome<Value>>
    requires a in nodes && v.Obj?
  {
    map k | k in v.members ::
      var i := FindField(nodes[a].fields, k);
      if i == |nodes[a].fields| then Ok(v.members[k])
      else CoerceReference(nodes, scalar, capped, nodes[a].fields[i], v.members[k], depth + 1)
  }

  lemma {:induction false} ReferenceUncapped(nodes: Types, scalar: ScalarCoercion, a: string, k: nat, v: Value, depth: nat)
    requires ReferencesResolve(nodes) && TablesAreLines(nodes)
    requires a in nodes && k < |nodes[a].fields| && Fits(nodes, a, depth)
    ensures CoerceReference(nodes, scalar, true, nodes[a].fields[k], v, depth + 1) == CoerceReference(nodes, scalar, false, nodes[a].fields[k], v, depth + 1)
    decreases v, 1
  {
    var f := nodes[a].fields[k];
    if f.reference.kind != TN.ScalarRef && f.reference.targetType in nodes && !f.reference.cyclic {
      var b := f.reference.targetType;
      assert DescentStep(nodes, a, b) by { assert Refers(f, b); }
      ChainsWithinStep(nodes, a, b, MAX_GRAPH_SCHEMA_DEPTH + 1 - depth);
      if nodes[b].kind == TN.TableNode {
        TableUncapped(nodes, scalar, b, v, depth + 1);
      } else {
        StructureUncapped(nodes, scalar, b, v, depth + 1);
      }
    }
  }

  // ---- what the cap rejects ----

  function CoerceNode(nodes: Types, scalar: ScalarCoercion, capped: bool, a: string, v: Value, depth: nat): Outcome<Value>
    requires a in nodes
  {
    if nodes[a].kind == TN.TableNode then CoerceTable(nodes, scalar, capped, a, v, depth) else CoerceStructure(nodes, scalar, capped, a, v, depth)
  }

  ghost predicate Sound(nodes: Types) { ReferencesResolve(nodes) && TablesAreLines(nodes) && FieldNamesDistinct(nodes) }

  lemma FoundField(nodes: Types, a: string, k: nat)
    requires Sound(nodes) && a in nodes && k < |nodes[a].fields|
    ensures FindField(nodes[a].fields, nodes[a].fields[k].name) == k
  {
  }

  /** An object of one member is coerced as that member, a list of one row as that row. */
  lemma OneMember(nodes: Types, scalar: ScalarCoercion, capped: bool, a: string, k: nat, w: Value, depth: nat)
    requires Sound(nodes) && a in nodes && k < |nodes[a].fields| && depth <= MAX_GRAPH_SCHEMA_DEPTH
    ensures CoerceStructure(nodes, scalar, capped, a, Obj(map[nodes[a].fields[k].name := w]), depth).Ok?
            <==> CoerceReference(nodes, scalar, capped, nodes[a].fields[k], w, depth + 1).Ok?
  {
    var name := nodes[a].fields[k].name;
    FoundField(nodes, a, k);
    var m := MembersOf(nodes, scalar, capped, a, Obj(map[name := w]), depth);
    assert name in m && m[name] == CoerceReference(nodes, scalar, capped, nodes[a].fields[k], w, depth + 1);
  }

  lemma OneRow(nodes: Types, scalar: ScalarCoercion, capped: bool, a: string, w: Value, depth: nat)
    requires a in nodes && depth <= MAX_GRAPH_SCHEMA_DEPTH
    ensures CoerceTable(nodes, scalar, capped, a, Arr([w]), depth).Ok? <==> CoerceLine(nodes, scalar, capped, a, w, depth + 1).Ok?
  {
    var v := Arr([w]);
    var rows := seq(|v.elems|, i requires 0 <= i < |v.elems| => CoerceLine(nodes, scalar, capped, a, v.elems[i], depth + 1));
    assert rows[0] == CoerceLine(nodes, scalar, capped, a, w, depth + 1);
  }

  function Nothing(node: TypeNode): Value { if node.kind == TN.TableNode then Arr([]) else Obj(map[]) }

  lemma NothingIsCoerced(nodes: Types, scalar: ScalarCoercion, a: string)
    requires a in nodes
    ensures CoerceNode(nodes, scalar, false, a, Nothing(nodes[a]), MAX_GRAPH_SCHEMA_DEPTH + 1).Ok?
    ensures CoerceNode(nodes, scalar, true, a, Nothing(nodes[a]), MAX_GRAPH_SCHEMA_DEPTH + 1).Rejected?
  {
  }

  /** A value nested along a chain that outruns the cap: refused with it, taken without it. */
  lemma {:induction false} LongChainRefused(nodes: Types, scalar: ScalarCoercion, a: string, depth: nat, p: seq<string>) returns (v: Value)
    requires Sound(nodes) && DescentFrom(nodes, a, p)
    requires depth <= MAX_GRAPH_SCHEMA_DEPTH + 1 && |p| > MAX_GRAPH_SCHEMA_DEPTH + 1 - depth
    ensures CoerceNode(nodes, scalar, true, a, v, depth).Rejected? && CoerceNode(nodes, scalar, false, a, v, depth).Ok?
    decreases MAX_GRAPH_SCHEMA_DEPTH + 1 - depth, 2
  {
    hide FieldNamesDistinct, ReferencesResolve, CoerceTable, CoerceStructure;
    if depth == MAX_GRAPH_SCHEMA_DEPTH + 1 {
      v := Nothing(nodes[a]);
      NothingIsCoerced(nodes, scalar, a);
    } else if nodes[a].kind == TN.TableNode {
      v := LongLineRefused(nodes, scalar, a, depth, p);
    } else {
      v := LongMemberRefused(nodes, scalar, a, depth, p);
    }
  }

  lemma {:induction false} LongMemberRefused(nodes: Types, scalar: ScalarCoercion, a: string, depth: nat, p: seq<string>) returns (v: Value)
    requires Sound(nodes) && DescentFrom(nodes, a, p)
    requires depth <= MAX_GRAPH_SCHEMA_DEPTH && |p| > MAX_GRAPH_SCHEMA_DEPTH + 1 - depth
    ensures CoerceStructure(nodes, scalar, true, a, v, depth).Rejected? && CoerceStructure(nodes, scalar, false, a, v, depth).Ok?
    decreases MAX_GRAPH_SCHEMA_DEPTH + 1 - depth, 1
  {
    hide Sound, CoerceTable, CoerceStructure;
    SplitDescent(nodes, p);
    var k :| 0 <= k < |nodes[a].fields| && Refers(nodes[a].fields[k], p[1]) && !nodes[a].fields[k].reference.cyclic;
    var w := LongChainRefused(nodes, scalar, p[1], depth + 1, p[1..]);
    v := Obj(map[nodes[a].fields[k].name := w]);
    OneMember(nodes, scalar, true, a, k, w, depth);
    OneMember(nodes, scalar, false, a, k, w, depth);
  }

  lemma {:induction false} LongLineRefused(nodes: Types, scalar: ScalarCoercion, a: string, depth: nat, p: seq<string>) returns (v: Value)
    requires Sound(nodes) && DescentFrom(nodes, a, p) && IsLine(nodes[a])
    requires depth <= MAX_GRAPH_SCHEMA_DEPTH && |p| > MAX_GRAPH_SCHEMA_DEPTH + 1 - depth
    ensures CoerceTable(nodes, scalar, true, a, v, depth).Rejected? && CoerceTable(nodes, scalar, false, a, v, depth).Ok?
    decreases MAX_GRAPH_SCHEMA_DEPTH + 1 - depth, 1
  {
    hide Sound, CoerceTable, CoerceStructure;
    SplitDescent(nodes, p);
    assert Refers(nodes[a].fields[0], p[1]) && !nodes[a].fields[0].reference.cyclic;
    var w := LongChainRefused(nodes, scalar, p[1], depth + 1, p[1..]);
    v := Arr([w]);
    OneRow(nodes, scalar, true, a, w, depth);
    OneRow(nodes, scalar, false, a, w, depth);
  }

  /** coerceGraphParam: a table parameter takes a list of rows of its type. */
  function CoerceParam(nodes: Types, scalar: ScalarCoercion, capped: bool, table: bool, a: string, v: Value): Outcome<Value>
    requires a in nodes
  {
    if table then CoerceTable(nodes, scalar, capped, a, v, 0) else CoerceStructure(nodes, scalar, capped, a, v, 0)
  }

  /** How many types in a row a value of a parameter may be nested through. */
  function CoercionReach(node: TypeNode, table: bool): nat {
    if table && !IsLine(node) then MAX_GRAPH_SCHEMA_DEPTH else MAX_GRAPH_SCHEMA_DEPTH + 1
  }

  ghost predicate CapUnseen(nodes: Types, scalar: ScalarCoercion, table: bool, a: string)
    requires a in nodes
  {
    forall v :: CoerceParam(nodes, scalar, true, table, a, v) == CoerceParam(nodes, scalar, false, table, a, v)
  }

  /** A value that only the cap refuses, for a parameter of a type with too long a chain. */
  lemma RefusedParam(nodes: Types, scalar: ScalarCoercion, table: bool, a: string, p: seq<string>) returns (v: Value)
    requires Sound(nodes) && a in nodes && DescentFrom(nodes, a, p) && |p| > CoercionReach(nodes[a], table)
    ensures CoerceParam(nodes, scalar, true, table, a, v).Rejected? && CoerceParam(nodes, scalar, false, table, a, v).Ok?
  {
    hide Sound, CoerceTable, CoerceStructure, Descent;
    if !table {
      v := LongMemberRefused(nodes, scalar, a, 0, p);
    } else if IsLine(nodes[a]) {
      v := LongLineRefused(nodes, scalar, a, 0, p);
    } else {
      var w := LongMemberRefused(nodes, scalar, a, 1, p);
      v := Arr([w]);
      OneRow(nodes, scalar, true, a, w, 0);
      OneRow(nodes, scalar, false, a, w, 0);
    }
  }

  /** The cap refuses no value of a parameter exactly when no chain of unflagged references outruns its reach. */
  lemma CoercionCapIff(nodes: Types, scalar: ScalarCoercion, table: bool, a: string)
    requires Sound(nodes) && a in nodes
    ensures CapUnseen(nodes, scalar, table, a) <==> ChainsWithin(nodes, a, CoercionReach(nodes[a], table))
  {
    hide ReferencesResolve, TablesAreLines, FieldNamesDistinct, CoerceTable, CoerceStructure, DescentFrom;
    if ChainsWithin(nodes, a, CoercionReach(nodes[a], table)) {
      forall v ensures CoerceParam(nodes, scalar, true, table, a, v) == CoerceParam(nodes, scalar, false, table, a, v) {
        if table { TableUncapped(nodes, scalar, a, v, 0); } else { StructureUncapped(nodes, scalar, a, v, 0); }
      }
    } else {
      var p :| DescentFrom(nodes, a, p) && |p| > CoercionReach(nodes[a], table);
      var v := RefusedParam(nodes, scalar, table, a, p);
    }
  }

  /** In a normalised graph no deeper than the reach the cap never refuses a value of any size. */
  lemma CoercionCapNeverFires(n: Normal, scalar: ScalarCoercion, table: bool, a: string)
    requires Normalised(n) && a in n.nodes && n.maximumDepth <= CoercionReach(n.nodes[a], table)
    ensures CapUnseen(n.nodes, scalar, table, a)
  {
    hide ReferencesResolve, TablesAreLines, FieldNamesDistinct, CyclicExact, RootsReachAll, Ranked, CapUnseen;
    CoercionCapIff(n.nodes, scalar, table, a);
  }

  /** For a table parameter the schema goes one type further than coercion: with a chain of exactly that length the schema
      is complete, yet some value it describes is refused. */
  lemma SchemaOutrunsCoercion(nodes: Types, rank: map<string, nat>, bound: nat, scalar: ScalarCoercion, a: string, p: seq<string>)
    requires Renderable(nodes, rank, bound) && a in nodes
    requires ChainsWithin(nodes, a, SchemaReach(nodes[a], true)) && DescentFrom(nodes, a, p) && |p| == SchemaReach(nodes[a], true)
    ensures CappedParam(nodes, rank, bound, true, a) == ParamSchema(nodes, rank, bound, true, a)
    ensures !CapUnseen(nodes, scalar, true, a)
  {
    hide ReferencesResolve, TablesAreLines, FieldNamesDistinct, CapUnseen, DescentFrom;
    ParamCapIff(nodes, rank, bound, true, a);
    CoercionCapIff(nodes, scalar, true, a);
  }

  // ---- coercion changes only scalars, and only once ----

  /** Coercing a coerced scalar changes nothing. */
  ghost predicate Settles(scalar: ScalarCoercion) {
    forall t: string, v :: scalar(t, v).Ok? ==> scalar(t, scalar(t, v).value) == scalar(t, v)
  }

  lemma {:induction false} TableSettles(nodes: Types, scalar: ScalarCoercion, capped: bool, a: string, v: Value, depth: nat)
    requires Settles(scalar) && a in nodes && CoerceTable(nodes, scalar, capped, a, v, depth).Ok?
    ensures var r := CoerceTable(nodes, scalar, capped, a, v, depth);
            CoerceTable(nodes, scalar, capped, a, r.value, depth) == r
    decreases v, 0
  {
    hide Settles, CoerceLine;
    var w := CoerceTable(nodes, scalar, capped, a, v, depth).value;
    var rows := seq(|v.elems|, i requires 0 <= i < |v.elems| => CoerceLine(nodes, scalar, capped, a, v.elems[i], depth + 1));
    var again := seq(|w.elems|, i requires 0 <= i < |w.elems| => CoerceLine(nodes, scalar, capped, a, w.elems[i], depth + 1));
    forall i | 0 <= i < |v.elems| ensures again[i] == rows[i] {
      assert rows[i].Ok? && w.elems[i] == rows[i].value;
      LineSettles(nodes, scalar, capped, a, v.elems[i], depth + 1);
    }
    assert again == rows;
  }

  lemma {:induction false} LineSettles(nodes: Types, scalar: ScalarCoercion, capped: bool, a: string, v: Value, depth: nat)
    requires Settles(scalar) && a in nodes && CoerceLine(nodes, scalar, capped, a, v, depth).Ok?
    ensures var r := CoerceLine(nodes, scalar, capped, a, v, depth);
            CoerceLine(nodes, scalar, capped, a, r.value, depth) == r
    decreases v, 2
  {
    hide Settles, CoerceStructure, CoerceReference;
    if IsLine(nodes[a]) {
      ReferenceSettles(nodes, scalar, capped, nodes[a].fields[0], v, depth);
    } else {
      StructureSettles(nodes, scalar, capped, a, v, depth);
    }
  }

  lemma {:induction false} StructureSettles(nodes: Types, scalar: ScalarCoercion, capped: bool, a: string, v: Value, depth: nat)
    requires Settles(scalar) && a in nodes && CoerceStructure(nodes, scalar, capped, a, v, depth).Ok?
    ensures var r := CoerceStructure(nodes, scalar, capped, a, v, depth);
            CoerceStructure(nodes, scalar, capped, a, r.value, depth) == r
    decreases v, 0
  {
    hide Settles, CoerceReference;
    var w := CoerceStructure(nodes, scalar, capped, a, v, depth).value;
    var m, again := MembersOf(nodes, scalar, capped, a, v, depth), MembersOf(nodes, scalar, capped, a, w, depth);
    forall k | k in v.members ensures again[k] == m[k] {
      assert m[k].Ok? && w.members[k] == m[k].value;
      var i := FindField(nodes[a].fields, k);
      if i < |nodes[a].fields| {
        ReferenceSettles(nodes, scalar, capped, nodes[a].fields[i], v.members[k], depth + 1);
      }
    }
    assert again == m;
  }

  lemma {:induction false} ReferenceSettles(nodes: Types, scalar: ScalarCoercion, capped: bool, f: MetadataField, v: Value, depth: nat)
    requires Settles(scalar) && CoerceReference(nodes, scalar, capped, f, v, depth).Ok?
    ensures var r := CoerceReference(nodes, scalar, capped, f, v, depth);
            CoerceReference(nodes, scalar, capped, f, r.value, depth) == r
    decreases v, 1
  {
    hide CoerceTable, CoerceStructure;
    if f.reference.kind != TN.ScalarRef && f.reference.targetType in nodes && !f.reference.cyclic {
      hide Settles;
      if nodes[f.reference.targetType].kind == TN.TableNode {
        TableSettles(nodes, scalar, capped, f.reference.targetType, v, depth);
      } else {
        StructureSettles(nodes, scalar, capped, f.reference.targetType, v, depth);
      }
    }
  }

  /** What a parameter has been coerced to is coerced to itself. */
  lemma CoercionSettles(nodes: Types, scalar: ScalarCoercion, capped: bool, table: bool, a: string, v: Value)
    requires Settles(scalar) && a in nodes && CoerceParam(nodes, scalar, capped, table, a, v).Ok?
    ensures var r := CoerceParam(nodes, scalar, capped, table, a, v);
            CoerceParam(nodes, scalar, capped, table, a, r.value) == r
  {
    hide Settles, CoerceTable, CoerceStructure;
    if table { TableSettles(nodes, scalar, capped, a, v, 0); } else { StructureSettles(nodes, scalar, capped, a, v, 0); }
  }
}
