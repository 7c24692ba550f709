/** buildNodes, refineTableNodeKinds and validateNodeTargets: from the rows of
    DATATYPESCONT to type nodes whose references all have a target of their kind. */
module TypeNodes {
  import opened TypeComponents

  datatype RefKind = ScalarRef | StructureRef | TableRef
  datatype NodeKind = StructureNode | TableNode | ScalarNode

  datatype Limits = Limits(maxNodes: nat, maxEdges: nat, maxDepth: nat)

  datatype TypeRow = TypeRow(
    typeName: string, fieldName: string, associatedType: string, internalType: string, timestamp: string,
    nucTotal: nat, ucTotal: nat, nucOffset: nat, ucOffset: nat, nucLength: nat, ucLength: nat)

  datatype Reference = Reference(kind: RefKind, internalType: string, targetType: string)

  datatype Field = Field(
    name: string, position: nat, associatedType: string, internalType: string,
    nucOffset: nat, ucOffset: nat, nucLength: nat, ucLength: nat, reference: Reference)

  datatype Node = Node(name: string, kind: NodeKind, nucLength: nat, ucLength: nat, timestamp: string, fields: seq<Field>)

  // ---- references ----

  predicate IsNested(internalType: string) {
    internalType == "u" || internalType == "v" || internalType == "h"
  }

  function ClassifyReference(internalType: string, associatedType: string): (r: Outcome<Reference>)
    ensures r.Rejected? <==> IsNested(internalType) && associatedType == ""
    ensures r.Ok? ==> (r.value.kind == ScalarRef <==> !IsNested(internalType)) && (r.value.kind == TableRef <==> internalType == "h")
    ensures r.Ok? ==> r.value.internalType == internalType
    ensures r.Ok? && r.value.kind != ScalarRef ==> r.value.targetType == associatedType != ""
  {
    if IsNested(internalType) then
      if |associatedType| == 0 then Rejected("MISSING_ASSOCIATED_TYPE")
      else Ok(Reference(if internalType == "h" then TableRef else StructureRef, internalType, associatedType))
    else
      Ok(Reference(ScalarRef, internalType, ""))
  }

  // ---- grouping ----

  function Flatten<T>(groups: seq<seq<T>>): seq<T> {
    if groups == [] then [] else Flatten(groups[..|groups| - 1]) + groups[|groups| - 1]
  }

  /** The rows cut wherever the type name changes. */
  function Groups(rows: seq<TypeRow>): (r: seq<seq<TypeRow>>)
    ensures forall i :: 0 <= i < |r| ==> |r[i]| > 0
  {
    if rows == [] then []
    else
      var groups := Groups(rows[..|rows| - 1]);
      var row := rows[|rows| - 1];
      var last := |groups| - 1;
      if groups != [] && groups[last][0].typeName == row.typeName then groups[last := groups[last] + [row]]
      else groups + [[row]]
  }

  /** Once a type name has been left it does not come back. */
  ghost predicate Contiguous(rows: seq<TypeRow>) {
    forall i, j, k :: 0 <= i < j < k < |rows| && rows[i].typeName == rows[k].typeName ==> rows[j].typeName == rows[i].typeName
  }

  ghost predicate GroupsShape(groups: seq<seq<TypeRow>>) {
    && (forall i :: 0 <= i < |groups| ==> |groups[i]| > 0)
    && (forall i, j :: 0 <= i < |groups| && 0 <= j < |groups[i]| ==> groups[i][j].typeName == groups[i][0].typeName)
    && (forall i, j :: 0 <= i < j < |groups| ==> groups[i][0].typeName != groups[j][0].typeName)
  }

  /** Where each row of the prefix already read sits: the last group holds the latest rows. */
  ghost predicate GroupsOf(rows: seq<TypeRow>, n: nat, groups: seq<seq<TypeRow>>) {
    && n <= |rows|
    && GroupsShape(groups)
    && Flatten(groups) == rows[..n]
  }

  lemma FlattenHolds(groups: seq<seq<TypeRow>>, i: nat, j: nat) returns (k: nat)
    requires i < |groups| && j < |groups[i]|
    ensures k < |Flatten(groups)| && Flatten(groups)[k] == groups[i][j]
    ensures i == |groups| - 1 ==> k == |Flatten(groups)| - |groups[i]| + j
    ensures i < |groups| - 1 ==> k < |Flatten(groups)| - |groups[|groups| - 1]|
  {
    if i == |groups| - 1 {
      k := |Flatten(groups[..i])| + j;
    } else {
      k := FlattenHolds(groups[..|groups| - 1], i, j);
    }
  }

  /** The groups of contiguous rows; refused exactly when some type name returns after another one. */
  method GroupRows(rows: seq<TypeRow>) returns (res: Outcome<seq<seq<TypeRow>>>)
    ensures res.Ok? <==> Contiguous(rows)
    ensures res.Rejected? ==> res.code == "NONCONTIGUOUS_TYPE"
    ensures res.Ok? ==> res.value == Groups(rows) && GroupsOf(rows, |rows|, res.value)
  {
    hide Contiguous, Flatten, GroupsOf, Groups;
    NothingGrouped(rows);
    var grouped: seq<seq<TypeRow>> := [];
    var closed: set<string> := {};
    ghost var names: seq<string> := [];
    for n := 0 to |rows|
      invariant GroupsOf(rows, n, grouped)
      invariant Contiguous(rows[..n]) && grouped == Groups(rows[..n])
      invariant |names| == |grouped| && forall i :: 0 <= i < |grouped| ==> |grouped[i]| > 0 && grouped[i][0].typeName == names[i]
      invariant forall t :: t in closed <==> |names| > 0 && t in names[..|names| - 1]
      invariant n == 0 <==> |grouped| == 0
      invariant n > 0 ==> names[|names| - 1] == rows[n - 1].typeName
    {
      var row := rows[n];
      NextGroup(rows, n);
      if |grouped| == 0 || grouped[|grouped| - 1][0].typeName != row.typeName {
        assert |names| > 0 ==> names == names[..|names| - 1] + [names[|names| - 1]];
        if |grouped| > 0 {
          closed := closed + {grouped[|grouped| - 1][0].typeName};
        }
        assert forall t :: t in closed <==> t in names;
        if row.typeName in closed {
          NotContiguous(rows, n, grouped);
          return Rejected("NONCONTIGUOUS_TYPE");
        }
        StartGroup(rows, n, grouped);
        grouped := grouped + [[row]];
        names := names + [row.typeName];
      } else {
        ExtendGroup(rows, n, grouped);
        grouped := grouped[|grouped| - 1 := grouped[|grouped| - 1] + [row]];
      }
    }
    assert rows[..|rows|] == rows;
    res := Ok(grouped);
  }

  lemma NothingGrouped(rows: seq<TypeRow>)
    ensures GroupsOf(rows, 0, []) && Contiguous(rows[..0]) && Groups(rows[..0]) == []
  {
  }

  lemma NextGroup(rows: seq<TypeRow>, n: nat)
    requires n < |rows|
    ensures var groups, row := Groups(rows[..n]), rows[n];
            Groups(rows[..n + 1]) ==
            if groups != [] && groups[|groups| - 1][0].typeName == row.typeName then groups[|groups| - 1 := groups[|groups| - 1] + [row]]
            else groups + [[row]]
  {
    assert rows[..n + 1][..n] == rows[..n];
  }

  lemma NotContiguous(rows: seq<TypeRow>, n: nat, groups: seq<seq<TypeRow>>)
    requires n < |rows| && GroupsOf(rows, n, groups) && |groups| > 0
    requires groups[|groups| - 1][0].typeName != rows[n].typeName
    requires exists i :: 0 <= i < |groups| && groups[i][0].typeName == rows[n].typeName
    ensures !Contiguous(rows)
  {
    var i :| 0 <= i < |groups| && groups[i][0].typeName == rows[n].typeName;
    var k := FlattenHolds(groups, i, 0);
    var l := FlattenHolds(groups, |groups| - 1, 0);
    assert rows[k] == groups[i][0] && rows[l] == groups[|groups| - 1][0];
  }

  lemma StartGroup(rows: seq<TypeRow>, n: nat, groups: seq<seq<TypeRow>>)
    requires n < |rows| && GroupsOf(rows, n, groups) && Contiguous(rows[..n])
    requires forall i :: 0 <= i < |groups| ==> groups[i][0].typeName != rows[n].typeName
    ensures GroupsOf(rows, n + 1, groups + [[rows[n]]]) && Contiguous(rows[..n + 1])
  {
    var groups' := groups + [[rows[n]]];
    assert groups'[..|groups'| - 1] == groups;
    assert rows[..n + 1] == rows[..n] + [rows[n]];
    forall i | 0 <= i < n
      ensures rows[i].typeName != rows[n].typeName
    {
      var a, b := GroupOfRow(groups, i);
      assert rows[..n][i] == groups[a][b];
    }
  }

  lemma ExtendGroup(rows: seq<TypeRow>, n: nat, groups: seq<seq<TypeRow>>)
    requires n < |rows| && GroupsOf(rows, n, groups) && Contiguous(rows[..n]) && |groups| > 0 && n > 0
    requires groups[|groups| - 1][0].typeName == rows[n].typeName == rows[n - 1].typeName
    ensures GroupsOf(rows, n + 1, groups[|groups| - 1 := groups[|groups| - 1] + [rows[n]]]) && Contiguous(rows[..n + 1])
  {
    var last := |groups| - 1;
    var groups' := groups[last := groups[last] + [rows[n]]];
    assert groups'[..last] == groups[..last];
    assert Flatten(groups') == Flatten(groups[..last]) + (groups[last] + [rows[n]]);
    assert rows[..n + 1] == rows[..n] + [rows[n]];
    var s := rows[..n + 1];
    forall i, j, k | 0 <= i < j < k < |s| && s[i].typeName == s[k].typeName
      ensures s[j].typeName == s[i].typeName
    {
      if k == n && j < n - 1 {
        assert rows[..n][i].typeName == rows[..n][n - 1].typeName;
        assert rows[..n][j].typeName == rows[..n][i].typeName;
      } else if k < n {
        assert rows[..n][i].typeName == rows[..n][k].typeName;
        assert rows[..n][j].typeName == rows[..n][i].typeName;
      }
    }
  }

  lemma GroupOfRow(groups: seq<seq<TypeRow>>, k: nat) returns (i: nat, j: nat)
    requires k < |Flatten(groups)|
    ensures i < |groups| && j < |groups[i]| && groups[i][j] == Flatten(groups)[k]
  {
    var last := |groups| - 1;
    if k < |Flatten(groups[..last])| {
      i, j := GroupOfRow(groups[..last], k);
    } else {
      i, j := last, k - |Flatten(groups[..last])|;
    }
  }

  // ---- one node ----

  function FieldOf(row: TypeRow, j: nat, reference: Reference): Field {
    Field(row.fieldName, j + 1, row.associatedType, row.internalType,
          row.nucOffset, row.ucOffset, row.nucLength, row.ucLength, reference)
  }

  /** Fields follow each other without overlap and stay inside the declared width. */
  ghost predicate Laid(fields: seq<Field>, nuc: nat, uc: nat) {
    && (forall i, j :: 0 <= i < j < |fields| ==>
          fields[i].nucOffset + fields[i].nucLength <= fields[j].nucOffset && fields[i].ucOffset + fields[i].ucLength <= fields[j].ucOffset)
    && (forall i :: 0 <= i < |fields| ==>
          fields[i].nucOffset + fields[i].nucLength <= nuc && fields[i].ucOffset + fields[i].ucLength <= uc)
  }

  ghost predicate DistinctNames(fields: seq<Field>) {
    forall i, j :: 0 <= i < j < |fields| ==> fields[i].name != fields[j].name
  }

  /** What kind says about a node's fields. A table or scalar node is exactly one unnamed line. */
  ghost predicate KindShape(n: Node) {
    match n.kind
    case StructureNode => |n.fields| > 0 && forall i :: 0 <= i < |n.fields| ==> n.fields[i].name != ""
    case TableNode => |n.fields| == 1 && n.fields[0].name == ""
    case ScalarNode => |n.fields| == 1 && n.fields[0].name == "" && n.fields[0].reference.kind == ScalarRef
  }

  ghost predicate ReferencesNamed(n: Node) {
    forall i :: 0 <= i < |n.fields| && n.fields[i].reference.kind != ScalarRef ==> n.fields[i].reference.targetType != ""
  }

  ghost predicate GoodNode(n: Node) {
    KindShape(n) && Laid(n.fields, n.nucLength, n.ucLength) && DistinctNames(n.fields) && ReferencesNamed(n)
  }

  function EdgesOf(fields: seq<Field>): nat {
    if fields == [] then 0
    else EdgesOf(fields[..|fields| - 1]) + if fields[|fields| - 1].reference.kind != ScalarRef then 1 else 0
  }

  predicate AllNamed(group: seq<TypeRow>) {
    forall i :: 0 <= i < |group| ==> group[i].fieldName != ""
  }

  method CountBlank(group: seq<TypeRow>) returns (n: nat)
    ensures n == 0 <==> AllNamed(group)
    ensures |group| == 1 ==> n == if group[0].fieldName == "" then 1 else 0
  {
    n := 0;
    for i := 0 to |group|
      invariant n == 0 <==> AllNamed(group[..i])
      invariant n <= i && (i == 1 ==> n == if group[0].fieldName == "" then 1 else 0)
    {
      assert group[..i + 1] == group[..i] + [group[i]];
      if |group[i].fieldName| == 0 {
        n := n + 1;
        assert !AllNamed(group[..i + 1]) by { assert group[..i + 1][i] == group[i]; }
      } else {
        assert AllNamed(group[..i]) ==> AllNamed(group[..i + 1]);
        assert AllNamed(group[..i + 1]) ==> AllNamed(group[..i]) by {
          assert forall j :: 0 <= j < i ==> group[..i][j] == group[..i + 1][j];
        }
      }
    }
    assert group[..|group|] == group;
  }

  ghost predicate EndBefore(fields: seq<Field>, nuc: nat, uc: nat) {
    forall i :: 0 <= i < |fields| ==> fields[i].nucOffset + fields[i].nucLength <= nuc && fields[i].ucOffset + fields[i].ucLength <= uc
  }

  lemma NoFields(nuc: nat, uc: nat)
    ensures Laid([], nuc, uc) && DistinctNames([]) && EndBefore([], 0, 0) && EdgesOf([]) == 0
  {
  }

  lemma AppendField(fields: seq<Field>, field: Field, prevNuc: nat, prevUc: nat, nuc: nat, uc: nat)
    requires Laid(fields, nuc, uc) && DistinctNames(fields) && EndBefore(fields, prevNuc, prevUc)
    requires prevNuc <= field.nucOffset && prevUc <= field.ucOffset
    requires field.nucOffset + field.nucLength <= nuc && field.ucOffset + field.ucLength <= uc
    requires forall i :: 0 <= i < |fields| ==> fields[i].name != field.name
    ensures Laid(fields + [field], nuc, uc) && DistinctNames(fields + [field])
    ensures EndBefore(fields + [field], field.nucOffset + field.nucLength, field.ucOffset + field.ucLength)
    ensures EdgesOf(fields + [field]) == EdgesOf(fields) + if field.reference.kind != ScalarRef then 1 else 0
  {
    assert (fields + [field])[..|fields|] == fields;
  }

  function NucEnd(row: TypeRow): nat { row.nucOffset + row.nucLength }
  function UcEnd(row: TypeRow): nat { row.ucOffset + row.ucLength }

  /** Row j agrees with the first, starts where its predecessor ends or later, ends within the totals, and has a target if it needs one. */
  predicate RowOk(group: seq<TypeRow>, j: nat, nucTotal: nat, ucTotal: nat)
    requires j < |group|
  {
    var row := group[j];
    && row.nucTotal == group[0].nucTotal && row.ucTotal == group[0].ucTotal && row.timestamp == group[0].timestamp
    && (j > 0 ==> NucEnd(group[j - 1]) <= row.nucOffset && UcEnd(group[j - 1]) <= row.ucOffset)
    && NucEnd(row) <= nucTotal && UcEnd(row) <= ucTotal
    && !(IsNested(row.internalType) && row.associatedType == "")
  }

  predicate FieldsAcceptable(group: seq<TypeRow>, nucTotal: nat, ucTotal: nat) {
    && (forall j :: 0 <= j < |group| ==> RowOk(group, j, nucTotal, ucTotal))
    && (forall i, j :: 0 <= i < j < |group| ==> group[i].fieldName != group[j].fieldName)
  }

  function ReferenceOf(row: TypeRow): Reference {
    if IsNested(row.internalType) then Reference(if row.internalType == "h" then TableRef else StructureRef, row.internalType, row.associatedType)
    else Reference(ScalarRef, row.internalType, "")
  }

  function FieldsOf(group: seq<TypeRow>): seq<Field> {
    seq(|group|, j requires 0 <= j < |group| => FieldOf(group[j], j, ReferenceOf(group[j])))
  }

  /** The fields of one group, accepted exactly when every row is and no name repeats; edges counts references to other types. */
  method BuildFields(group: seq<TypeRow>, nucTotal: nat, ucTotal: nat) returns (res: Outcome<seq<Field>>, edges: nat)
    requires |group| > 0
    ensures res.Ok? <==> FieldsAcceptable(group, nucTotal, ucTotal)
    ensures res.Ok? ==> res.value == FieldsOf(group)
    ensures res.Ok? ==> Laid(res.value, nucTotal, ucTotal) && DistinctNames(res.value) && edges == EdgesOf(res.value)
  {
    hide Laid, EndBefore, DistinctNames, EdgesOf;
    NoFields(nucTotal, ucTotal);
    var names: set<string> := {};
    var fields: seq<Field> := [];
    var previousNucEnd: nat, previousUcEnd: nat := 0, 0;
    edges := 0;
    for j := 0 to |group|
      invariant |fields| == j && forall i :: 0 <= i < j ==> fields[i] == FieldsOf(group)[i]
      invariant forall i :: 0 <= i < j ==> RowOk(group, i, nucTotal, ucTotal)
      invariant Laid(fields, nucTotal, ucTotal) && DistinctNames(fields)
      invariant forall t :: t in names <==> exists i :: 0 <= i < j && group[i].fieldName == t
      invariant forall a, b :: 0 <= a < b < j ==> group[a].fieldName != group[b].fieldName
      invariant EndBefore(fields, previousNucEnd, previousUcEnd)
      invariant j > 0 ==> previousNucEnd == NucEnd(group[j - 1]) && previousUcEnd == UcEnd(group[j - 1])
      invariant j == 0 ==> previousNucEnd == 0 && previousUcEnd == 0
      invariant edges == EdgesOf(fields)
    {
      var row := group[j];
      if row.nucTotal != group[0].nucTotal || row.ucTotal != group[0].ucTotal {
        assert !RowOk(group, j, nucTotal, ucTotal);
        return Rejected("INCONSISTENT_TOTAL_LENGTH"), edges;
      }
      if row.timestamp != group[0].timestamp {
        assert !RowOk(group, j, nucTotal, ucTotal);
        return Rejected("INCONSISTENT_TIMESTAMP"), edges;
      }
      if row.fieldName in names {
        return Rejected("DUPLICATE_FIELD"), edges;
      }
      var nucEnd, ucEnd := row.nucOffset + row.nucLength, row.ucOffset + row.ucLength;
      if row.nucOffset < previousNucEnd || row.ucOffset < previousUcEnd || nucEnd > nucTotal || ucEnd > ucTotal {
        assert !RowOk(group, j, nucTotal, ucTotal);
        return Rejected("INVALID_GEOMETRY"), edges;
      }
      var reference := ClassifyReference(row.internalType, row.associatedType);
      if reference.Rejected? {
        assert !RowOk(group, j, nucTotal, ucTotal);
        return Rejected(reference.code), edges;
      }
      if reference.value.kind != ScalarRef {
        edges := edges + 1;
      }
      var field := FieldOf(row, j, reference.value);
      AppendField(fields, field, previousNucEnd, previousUcEnd, nucTotal, ucTotal);
      names := names + {row.fieldName};
      previousNucEnd, previousUcEnd := nucEnd, ucEnd;
      fields := fields + [field];
    }
    assert fields == FieldsOf(group);
    res := Ok(fields);
  }

  /** An unnamed scalar line without a declared length is as long as its field. */
  function NucTotal(group: seq<TypeRow>): nat
    requires |group| > 0
  {
    if !AllNamed(group) && ReferenceOf(group[0]).kind == ScalarRef && group[0].nucTotal == 0 then NucEnd(group[0]) else group[0].nucTotal
  }

  function UcTotal(group: seq<TypeRow>): nat
    requires |group| > 0
  {
    if !AllNamed(group) && ReferenceOf(group[0]).kind == ScalarRef && group[0].ucTotal == 0 then UcEnd(group[0]) else group[0].ucTotal
  }

  /** An unnamed row stands alone, and the rows are acceptable against the totals. */
  predicate GroupAcceptable(group: seq<TypeRow>) {
    |group| > 0 && (AllNamed(group) || |group| == 1) && FieldsAcceptable(group, NucTotal(group), UcTotal(group))
  }

  function NodeOf(group: seq<TypeRow>): Node
    requires |group| > 0
  {
    Node(group[0].typeName,
         if AllNamed(group) then StructureNode else if ReferenceOf(group[0]).kind == ScalarRef then ScalarNode else TableNode,
         NucTotal(group), UcTotal(group), group[0].timestamp, FieldsOf(group))
  }

  method BuildNode(group: seq<TypeRow>) returns (res: Outcome<Node>, edges: nat)
    requires |group| > 0
    ensures res.Ok? <==> GroupAcceptable(group)
    ensures res.Ok? ==> res.value == NodeOf(group) && GoodNode(res.value) && edges == EdgesOf(res.value.fields)
  {
    hide FieldsAcceptable, Laid, DistinctNames, EdgesOf;
    edges := 0;
    var first := group[0];
    var blankCount := CountBlank(group);
    var anonymous := blankCount > 0;
    if anonymous && (|group| != 1 || blankCount != 1) {
      return Rejected("INVALID_TABLE_SHAPE"), edges;
    }
    var nucTotal, ucTotal := first.nucTotal, first.ucTotal;
    if anonymous {
      var reference := ClassifyReference(first.internalType, first.associatedType);
      if reference.Rejected? {
        NoTarget(group);
        return Rejected(reference.code), edges;
      }
      if reference.value.kind == ScalarRef && first.nucTotal == 0 {
        nucTotal := first.nucOffset + first.nucLength;
      }
      if reference.value.kind == ScalarRef && first.ucTotal == 0 {
        ucTotal := first.ucOffset + first.ucLength;
      }
    }
    var fields;
    fields, edges := BuildFields(group, nucTotal, ucTotal);
    if fields.Rejected? {
      return Rejected(fields.code), edges;
    }
    var kind := if !anonymous then StructureNode else if fields.value[0].reference.kind == ScalarRef then ScalarNode else TableNode;
    var node := Node(first.typeName, kind, nucTotal, ucTotal, first.timestamp, fields.value);
    NamedFields(group);
    TargetsNamed(group);
    res := Ok(node);
  }

  lemma NoTarget(group: seq<TypeRow>)
    requires |group| > 0 && IsNested(group[0].internalType) && group[0].associatedType == ""
    ensures !GroupAcceptable(group)
  {
    assert |group| > 0 ==> !RowOk(group, 0, NucTotal(group), UcTotal(group));
  }

  lemma NamedFields(group: seq<TypeRow>)
    requires |group| > 0
    ensures AllNamed(group) ==> forall i :: 0 <= i < |FieldsOf(group)| ==> FieldsOf(group)[i].name != ""
    ensures |group| == 1 && !AllNamed(group) ==> FieldsOf(group)[0].name == ""
  {
  }

  lemma TargetsNamed(group: seq<TypeRow>)
    requires |group| > 0
    ensures FieldsAcceptable(group, NucTotal(group), UcTotal(group)) ==>
              forall i :: 0 <= i < |group| && FieldsOf(group)[i].reference.kind != ScalarRef ==> FieldsOf(group)[i].reference.targetType != ""
  {
    if FieldsAcceptable(group, NucTotal(group), UcTotal(group)) {
      forall i | 0 <= i < |group| && FieldsOf(group)[i].reference.kind != ScalarRef ensures FieldsOf(group)[i].reference.targetType != "" {
        assert RowOk(group, i, NucTotal(group), UcTotal(group));
      }
    }
  }

  // ---- all nodes ----

  ghost predicate UniqueNames(nodes: seq<Node>) {
    forall i, j :: 0 <= i < j < |nodes| ==> nodes[i].name != nodes[j].name
  }

  /** References to other types in these groups. */
  function EdgesIn(groups: seq<seq<TypeRow>>): nat {
    if groups == [] then 0 else EdgesIn(groups[..|groups| - 1]) + EdgesOf(FieldsOf(groups[|groups| - 1]))
  }

  /** Exactly the row lists buildNodes takes. */
  ghost predicate RowsAcceptable(rows: seq<TypeRow>, limits: Limits) {
    && Contiguous(rows) && |Groups(rows)| <= limits.maxNodes
    && (forall i :: 0 <= i < |Groups(rows)| ==> GroupAcceptable(Groups(rows)[i]))
    && EdgesIn(Groups(rows)) <= limits.maxEdges
  }

  function NodesOf(rows: seq<TypeRow>): seq<Node> {
    var groups := Groups(rows);
    seq(|groups|, i requires 0 <= i < |groups| => NodeOf(groups[i]))
  }

  lemma {:induction false} EdgesOfPrefix(groups: seq<seq<TypeRow>>, i: nat)
    requires i <= |groups|
    ensures EdgesIn(groups[..i]) <= EdgesIn(groups)
    decreases |groups|
  {
    if i < |groups| {
      assert groups[..|groups| - 1][..i] == groups[..i];
      EdgesOfPrefix(groups[..|groups| - 1], i);
    } else {
      assert groups[..i] == groups;
    }
  }

  /** An acceptable row list yields one well-shaped node per type name, holding that type's rows in order. */
  method BuildNodes(rows: seq<TypeRow>, limits: Limits) returns (res: Outcome<seq<Node>>)
    ensures res.Ok? <==> RowsAcceptable(rows, limits)
    ensures res.Ok? ==> res.value == NodesOf(rows) && UniqueNames(res.value)
    ensures res.Ok? ==> forall i :: 0 <= i < |res.value| ==> GoodNode(res.value[i])
  {
    hide Flatten, EdgesOf, EdgesIn, GoodNode, Contiguous, GroupAcceptable, NodeOf, FieldsOf, Groups, GroupsOf, UniqueNames;
    var grouped := GroupRows(rows);
    if grouped.Rejected? {
      return Rejected(grouped.code);
    }
    var groups := grouped.value;
    if |groups| > limits.maxNodes {
      return Rejected("NODE_LIMIT");
    }
    var nodes: seq<Node> := [];
    var fieldEdges := 0;
    NoEdges(groups);
    for i := 0 to |groups|
      invariant |nodes| == i && forall k :: 0 <= k < i ==> nodes[k] == NodeOf(groups[k]) && GoodNode(nodes[k])
      invariant forall k :: 0 <= k < i ==> GroupAcceptable(groups[k])
      invariant fieldEdges == EdgesIn(groups[..i]) <= limits.maxEdges
    {
      var node, edges := BuildNode(groups[i]);
      if node.Rejected? {
        return Rejected(node.code);
      }
      fieldEdges := fieldEdges + edges;
      EdgesNext(groups, i);
      if fieldEdges > limits.maxEdges {
        EdgesOfPrefix(groups, i + 1);
        return Rejected("EDGE_LIMIT");
      }
      nodes := nodes + [node.value];
    }
    assert groups[..|groups|] == groups;
    assert nodes == NodesOf(rows);
    NamesOfGroups(rows, groups, nodes);
    res := Ok(nodes);
  }

  lemma NoEdges(groups: seq<seq<TypeRow>>)
    ensures EdgesIn(groups[..0]) == 0
  {
  }

  lemma EdgesNext(groups: seq<seq<TypeRow>>, i: nat)
    requires i < |groups| && |groups[i]| > 0
    ensures EdgesIn(groups[..i + 1]) == EdgesIn(groups[..i]) + EdgesOf(NodeOf(groups[i]).fields)
  {
    assert groups[..i + 1][..i] == groups[..i];
  }

  lemma NamesOfGroups(rows: seq<TypeRow>, groups: seq<seq<TypeRow>>, nodes: seq<Node>)
    requires GroupsOf(rows, |rows|, groups) && |nodes| == |groups| && forall k :: 0 <= k < |groups| ==> nodes[k] == NodeOf(groups[k])
    ensures UniqueNames(nodes)
  {
  }

  // ---- refinement and validation ----

  /** A field or a parameter uses t as the name of a table type. */
  ghost predicate UsedAsTable(nodes: seq<Node>, byParameters: set<string>, t: string) {
    t in byParameters || exists i, j :: TableTarget(nodes, i, j, t)
  }

  ghost function RefinedNode(n: Node, required: bool): Node {
    if n.kind == ScalarNode && required then n.(kind := TableNode) else n
  }

  method RequiredTables(nodes: seq<Node>, byParameters: set<string>) returns (required: set<string>)
    ensures forall t :: t in required <==> UsedAsTable(nodes, byParameters, t)
  {
    required := byParameters;
    for i := 0 to |nodes|
      invariant forall t :: t in required <==> t in byParameters || exists a, b :: a < i && TableTarget(nodes, a, b, t)
    {
      ghost var required0 := required;
      for j := 0 to |nodes[i].fields|
        invariant forall t :: t in required <==> t in required0 || exists b :: b < j && TableTarget(nodes, i, b, t)
      {
        var r := nodes[i].fields[j].reference;
        if r.kind == TableRef {
          assert TableTarget(nodes, i, j, r.targetType);
          required := required + {r.targetType};
        }
      }
    }
  }

  ghost predicate TableTarget(nodes: seq<Node>, i: int, j: int, t: string) {
    0 <= i < |nodes| && 0 <= j < |nodes[i].fields| && nodes[i].fields[j].reference.kind == TableRef && nodes[i].fields[j].reference.targetType == t
  }

  /** An unnamed scalar line becomes a table when a field or a parameter uses its name as a table type. */
  method RefineTableNodeKinds(nodes: seq<Node>, byParameters: set<string>) returns (out: seq<Node>)
    ensures |out| == |nodes|
    ensures forall i :: 0 <= i < |nodes| ==> out[i] == RefinedNode(nodes[i], UsedAsTable(nodes, byParameters, nodes[i].name))
  {
    var required := RequiredTables(nodes, byParameters);
    out := [];
    for i := 0 to |nodes|
      invariant |out| == i
      invariant forall k :: 0 <= k < i ==> out[k] == RefinedNode(nodes[k], nodes[k].name in required)
    {
      var node := nodes[i];
      if node.kind == ScalarNode && node.name in required {
        node := node.(kind := TableNode);
      }
      out := out + [node];
    }
  }

  ghost predicate ReferenceResolved(nodes: seq<Node>, r: Reference) {
    r.kind != ScalarRef ==>
      exists t :: 0 <= t < |nodes| && nodes[t].name == r.targetType && KindMatches(r.kind, nodes[t].kind)
  }

  predicate KindMatches(r: RefKind, n: NodeKind) {
    (r == StructureRef && n == StructureNode) || (r == TableRef && n == TableNode)
  }

  ghost predicate Resolved(nodes: seq<Node>) {
    forall i, j :: 0 <= i < |nodes| && 0 <= j < |nodes[i].fields| ==> ReferenceResolved(nodes, nodes[i].fields[j].reference)
  }

  method IndexByName(nodes: seq<Node>) returns (index: map<string, nat>)
    requires UniqueNames(nodes)
    ensures NameIndex(nodes, index)
  {
    index := map[];
    for i := 0 to |nodes|
      invariant forall k :: 0 <= k < i ==> nodes[k].name in index && index[nodes[k].name] == k
      invariant forall t :: t in index ==> index[t] < i && nodes[index[t]].name == t
    {
      index := index[nodes[i].name := i];
    }
  }

  ghost predicate NameIndex(nodes: seq<Node>, index: map<string, nat>) {
    && (forall k :: 0 <= k < |nodes| ==> nodes[k].name in index && index[nodes[k].name] == k)
    && (forall t :: t in index ==> index[t] < |nodes| && nodes[index[t]].name == t)
  }

  /** Accepts exactly the node lists whose every reference has a target of its own kind. */
  method ValidateNodeTargets(nodes: seq<Node>, index: map<string, nat>) returns (res: Outcome<()>)
    requires NameIndex(nodes, index)
    ensures res.Ok? <==> Resolved(nodes)
  {
    for i := 0 to |nodes|
      invariant forall a, j :: 0 <= a < i && 0 <= j < |nodes[a].fields| ==> ReferenceResolved(nodes, nodes[a].fields[j].reference)
    {
      for j := 0 to |nodes[i].fields|
        invariant forall b :: 0 <= b < j ==> ReferenceResolved(nodes, nodes[i].fields[b].reference)
      {
        var r := nodes[i].fields[j].reference;
        if r.kind != ScalarRef {
          if r.targetType !in index {
            assert !ReferenceResolved(nodes, nodes[i].fields[j].reference);
            return Rejected("FOREIGN_TYPE_REFERENCE");
          }
          var target := nodes[index[r.targetType]];
          if !KindMatches(r.kind, target.kind) {
            assert !ReferenceResolved(nodes, nodes[i].fields[j].reference);
            return Rejected("REFERENCE_KIND_MISMATCH");
          }
        }
      }
    }
    res := Ok(());
  }
}
