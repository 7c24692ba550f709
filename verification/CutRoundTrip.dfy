/** The server reads from a request what the client put in. */
module CutRoundTrip {
  import opened Bytes
  import opened CutNames
  import opened FieldChain
  import opened CutFields
  import opened CutRequest
  import opened CutServer

  lemma {:induction false} GatherSplit(g: Gathering, a: seq<Field>, b: seq<Field>, order: Option<bool>, rootName: RootName)
    ensures Gather(g, a + b, order, rootName) ==
            match Gather(g, a, order, rootName) { case None => None case Some(h) => Gather(h, b, order, rootName) }
    decreases |a|
  {
    hide Absorb;
    if a == [] {
      assert a + b == b;
    } else {
      assert (a + b)[1..] == a[1..] + b;
      if Absorb(g, a[0], order, rootName).Some? {
        GatherSplit(Absorb(g, a[0], order, rootName).value, a[1..], b, order, rootName);
      }
    }
  }

  lemma GatherOne(g: Gathering, f: Field, order: Option<bool>, rootName: RootName)
    ensures Gather(g, [f], order, rootName) == Absorb(g, f, order, rootName)
  {
    hide Absorb;
    assert [f][1..] == [];
  }

  lemma GatherTwo(g: Gathering, a: Field, b: Field, order: Option<bool>, rootName: RootName)
    ensures Gather(g, [a, b], order, rootName) ==
            match Absorb(g, a, order, rootName) { case None => None case Some(h) => Absorb(h, b, order, rootName) }
  {
    hide Absorb, Gather;
    assert [a, b] == [a] + [b];
    GatherSplit(g, [a], [b], order, rootName);
    GatherOne(g, a, order, rootName);
    if Absorb(g, a, order, rootName).Some? { GatherOne(Absorb(g, a, order, rootName).value, b, order, rootName); }
  }

  // ---- segment by segment ----

  function Rereads(names: seq<Name>): seq<Name> { seq(|names|, i requires 0 <= i < |names| => Reread(names[i])) }

  function RereadValues(values: seq<NamedValue>): seq<NamedValue> {
    seq(|values|, i requires 0 <= i < |values| => NamedValue(Reread(values[i].name), values[i].value))
  }

  function RereadTables(tables: seq<Table>): seq<InboundTable> {
    seq(|tables|, i requires 0 <= i < |tables| => RereadTable(tables[i]))
  }

  function RereadTable(t: Table): InboundTable {
    InboundTable(Reread(t.name), if t.width >= 0 then t.width else 0, t.rows, None)
  }

  lemma {:induction false} OutputsGathered(g: Gathering, names: seq<Name>, rootName: RootName)
    ensures Gather(g, OutputFields(names), None, rootName) == Some(g.(req := g.req.(outputs := g.req.outputs + Rereads(names))))
    decreases |names|
  {
    hide Wide, DecodeName, Gather;
    if names == [] {
      GatherNone(g, rootName);
      assert g.req.outputs + Rereads(names) == g.req.outputs;
    } else {
      var n := |names| - 1;
      OutputsGathered(g, names[..n], rootName);
      var f := Field(REQUESTED_OUTPUT, Wide(names[n]));
      GatherSplit(g, OutputFields(names[..n]), [f], None, rootName);
      var h := g.(req := g.req.(outputs := g.req.outputs + Rereads(names[..n])));
      GatherOne(h, f, None, rootName);
      assert Rereads(names) == Rereads(names[..n]) + [Reread(names[n])];
      assert g.req.outputs + Rereads(names[..n]) + [Reread(names[n])] == g.req.outputs + Rereads(names);
    }
  }

  lemma GatherNone(g: Gathering, rootName: RootName)
    ensures Gather(g, [], None, rootName) == Some(g)
  {
  }

  lemma {:induction false} NamedGathered(g: Gathering, values: seq<NamedValue>, rootName: RootName)
    requires g.pendingName.None?
    ensures Gather(g, NamedFields(Client, values), None, rootName) == Some(g.(req := g.req.(imports := g.req.imports + RereadValues(values))))
    decreases |values|
  {
    hide Wide, DecodeName, Gather;
    if values == [] {
      GatherNone(g, rootName);
      assert g.req.imports + RereadValues(values) == g.req.imports;
    } else {
      var n := |values| - 1;
      var v := values[n];
      NamedGathered(g, values[..n], rootName);
      GatherSplit(g, NamedFields(Client, values[..n]), ValueFields(Client, v), None, rootName);
      var h := g.(req := g.req.(imports := g.req.imports + RereadValues(values[..n])));
      GatherTwo(h, Field(PARAMETER_NAME, Wide(v.name)), Field(PARAMETER_VALUE, v.value), None, rootName);
      var last := [NamedValue(Reread(v.name), v.value)];
      assert RereadValues(values) == RereadValues(values[..n]) + last;
      assert g.req.imports + RereadValues(values[..n]) + last == g.req.imports + RereadValues(values);
    }
  }

  /** Rows join the table that was named last. */
  lemma {:induction false} RowsGathered(g: Gathering, rows: seq<seq<byte>>, rootName: RootName)
    requires g.req.tables != []
    ensures var t := LastTable(g.req.tables);
            Gather(g, FieldsOf(TABLE_ROW, rows), None, rootName)
            == Some(g.(req := g.req.(tables := WithLastTable(g.req.tables, t.(rows := t.rows + rows)))))
    decreases |rows|
  {
    hide DecodeName, Gather;
    var t := LastTable(g.req.tables);
    if rows == [] {
      GatherNone(g, rootName);
      assert t.rows + rows == t.rows && WithLastTable(g.req.tables, t) == g.req.tables;
      assert FieldsOf(TABLE_ROW, rows) == [];
    } else {
      var n := |rows| - 1;
      var f := Field(TABLE_ROW, rows[n]);
      RowsGathered(g, rows[..n], rootName);
      assert FieldsOf(TABLE_ROW, rows) == FieldsOf(TABLE_ROW, rows[..n]) + [f];
      GatherSplit(g, FieldsOf(TABLE_ROW, rows[..n]), [f], None, rootName);
      var t' := t.(rows := t.rows + rows[..n]);
      var h := g.(req := g.req.(tables := WithLastTable(g.req.tables, t')));
      GatherOne(h, f, None, rootName);
      assert t.rows + rows[..n] + [rows[n]] == t.rows + rows;
      ReplaceTwice(g.req.tables, t', t.(rows := t.rows + rows));
    }
  }

  lemma ReplaceTwice(tables: seq<InboundTable>, a: InboundTable, b: InboundTable)
    requires tables != []
    ensures WithLastTable(tables, a) != [] && LastTable(WithLastTable(tables, a)) == a
    ensures WithLastTable(WithLastTable(tables, a), b) == WithLastTable(tables, b)
  {
    assert WithLastTable(tables, a)[..|tables| - 1] == tables[..|tables| - 1];
  }

  lemma AppendReplaced(tables: seq<InboundTable>, a: InboundTable, b: InboundTable)
    ensures LastTable(tables + [a]) == a && WithLastTable(tables + [a], b) == tables + [b]
  {
    assert (tables + [a])[..|tables|] == tables;
  }

  lemma HeaderWidth(t: Table)
    requires WidthOk(Client, t.width)
    ensures |TableHeader(t)| == 8 && BigEndian(TableHeader(t)[..4]) == t.width
  {
    assert TableHeader(t)[..4] == U32(t.width);
    BigEndianOfU32(t.width);
  }

  lemma TableGathered(g: Gathering, t: Table, rootName: RootName)
    requires WidthOk(Client, t.width)
    ensures Gather(g, OneTable(Client, t), None, rootName) == Some(g.(req := g.req.(tables := g.req.tables + [RereadTable(t)])))
  {
    hide Wide, DecodeName, Gather, TableHeader, BigEndian;
    var name, header := Field(TABLE_NAME, Wide(t.name)), Field(TABLE_HEADER, TableHeader(t));
    var tables := g.req.tables;
    var fresh0 := InboundTable(Reread(t.name), 0, [], None);
    var sized := fresh0.(width := t.width);
    HeaderWidth(t);
    GatherSplit(g, [name, header], FieldsOf(TABLE_ROW, t.rows), None, rootName);
    GatherTwo(g, name, header, None, rootName);
    AppendReplaced(tables, fresh0, sized);
    var h := g.(req := g.req.(tables := tables + [sized]));
    RowsGathered(h, t.rows, rootName);
    AppendReplaced(tables, sized, RereadTable(t));
    assert [] + t.rows == t.rows;
  }

  lemma {:induction false} TablesGathered(g: Gathering, tables: seq<Table>, rootName: RootName)
    requires forall k :: 0 <= k < |tables| ==> WidthOk(Client, tables[k].width)
    ensures Gather(g, TableFields(Client, tables), None, rootName) == Some(g.(req := g.req.(tables := g.req.tables + RereadTables(tables))))
    decreases |tables|
  {
    hide Gather, OneTable, RereadTable;
    if tables == [] {
      GatherNone(g, rootName);
      assert g.req.tables + RereadTables(tables) == g.req.tables;
    } else {
      var n := |tables| - 1;
      TablesGathered(g, tables[..n], rootName);
      GatherSplit(g, TableFields(Client, tables[..n]), OneTable(Client, tables[n]), None, rootName);
      var h := g.(req := g.req.(tables := g.req.tables + RereadTables(tables[..n])));
      TableGathered(h, tables[n], rootName);
      assert RereadTables(tables) == RereadTables(tables[..n]) + [RereadTable(tables[n])];
      assert g.req.tables + RereadTables(tables[..n]) + [RereadTable(tables[n])] == g.req.tables + RereadTables(tables);
    }
  }

  /** Chunks between the boundaries are joined again. */
  lemma {:induction false} ChunksGathered(g: Gathering, chunks: seq<seq<byte>>, rootName: RootName)
    ensures Gather(g, FieldsOf(XRFC_DATA, chunks), None, rootName) == Some(g.(xmlData := g.xmlData + Flatten(chunks)))
    decreases |chunks|
  {
    hide DecodeName, Gather;
    if chunks == [] {
      GatherNone(g, rootName);
      assert g.xmlData + Flatten(chunks) == g.xmlData && FieldsOf(XRFC_DATA, chunks) == [];
    } else {
      var n := |chunks| - 1;
      var f := Field(XRFC_DATA, chunks[n]);
      ChunksGathered(g, chunks[..n], rootName);
      assert FieldsOf(XRFC_DATA, chunks) == FieldsOf(XRFC_DATA, chunks[..n]) + [f];
      GatherSplit(g, FieldsOf(XRFC_DATA, chunks[..n]), [f], None, rootName);
      var h := g.(xmlData := g.xmlData + Flatten(chunks[..n]));
      GatherOne(h, f, None, rootName);
      assert chunks == chunks[..n] + [chunks[n]];
      FlattenSplit(chunks[..n], [chunks[n]]);
      FlattenOne(chunks[n]);
      assert g.xmlData + Flatten(chunks[..n]) + chunks[n] == g.xmlData + Flatten(chunks);
    }
  }

  lemma EmptyName()
    ensures DecodeName([], None) == []
  {
  }

  /** XML parameters under the names their documents carry, unless one carries none. */
  function RootNamed(params: seq<NamedValue>, rootName: RootName): Option<seq<NamedValue>> {
    if params == [] then Some([])
    else
      var v := params[|params| - 1];
      var front := RootNamed(params[..|params| - 1], rootName);
      if front.None? || rootName(v.value).None? then None else Some(front.value + [NamedValue(rootName(v.value).value, v.value)])
  }

  predicate XmlNamed(params: seq<NamedValue>, rootName: RootName) {
    forall k :: 0 <= k < |params| ==> rootName(params[k].value) == Some(params[k].name)
  }

  lemma {:induction false} RootNamedIff(params: seq<NamedValue>, rootName: RootName)
    ensures RootNamed(params, rootName) == Some(params) <==> XmlNamed(params, rootName)
    ensures RootNamed(params, rootName).Some? ==> |RootNamed(params, rootName).value| == |params|
    decreases |params|
  {
    if params != [] {
      var n := |params| - 1;
      RootNamedIff(params[..n], rootName);
      assert params == params[..n] + [params[n]];
      if RootNamed(params, rootName) == Some(params) {
        var front := RootNamed(params[..n], rootName).value;
        assert (front + [RootNamed(params, rootName).value[n]])[..n] == front;
      }
      assert forall k :: 0 <= k < n ==> params[..n][k] == params[k];
    }
  }

  lemma OneXmlGathered(g: Gathering, value: seq<byte>, rootName: RootName)
    requires g.openXml.None? && g.xmlData == []
    ensures Gather(g, OneXml(value), None, rootName) ==
            match rootName(value) { case None => None case Some(name) => Some(g.(req := g.req.(xml := g.req.xml + [NamedValue(name, value)]))) }
  {
    hide DecodeName, Gather, Slices, FieldsOf, Flatten;
    var edge := Field(XRFC_PARAMETER, []);
    var chunks := Slices(value, XML_CHUNK);
    var data := FieldsOf(XRFC_DATA, chunks);
    EmptyName();
    SlicesJoin(value, XML_CHUNK);
    GatherSplit(g, [edge] + data, [edge], None, rootName);
    GatherSplit(g, [edge], data, None, rootName);
    GatherOne(g, edge, None, rootName);
    var h := g.(openXml := Some([]));
    ChunksGathered(h, chunks, rootName);
    assert [] + value == value;
    GatherOne(h.(xmlData := value), edge, None, rootName);
  }

  lemma {:induction false} XmlGathered(g: Gathering, params: seq<NamedValue>, rootName: RootName)
    requires g.openXml.None? && g.xmlData == []
    ensures Gather(g, XmlFields(params), None, rootName) ==
            match RootNamed(params, rootName) { case None => None case Some(xml) => Some(g.(req := g.req.(xml := g.req.xml + xml))) }
    decreases |params|
  {
    hide Gather, OneXml;
    if params == [] {
      GatherNone(g, rootName);
      assert g.req.xml + params == g.req.xml;
    } else {
      var n := |params| - 1;
      XmlGathered(g, params[..n], rootName);
      GatherSplit(g, XmlFields(params[..n]), OneXml(params[n].value), None, rootName);
      if RootNamed(params[..n], rootName).Some? {
        var xml := RootNamed(params[..n], rootName).value;
        OneXmlGathered(g.(req := g.req.(xml := g.req.xml + xml)), params[n].value, rootName);
        if name :| rootName(params[n].value) == Some(name) {
          assert g.req.xml + xml + [NamedValue(name, params[n].value)] == g.req.xml + (xml + [NamedValue(name, params[n].value)]);
        }
      }
    }
  }

  // ---- the whole request ----

  /** What the server understands of an accepted request: its names as reread, its XML under the documents' own names,
      everything else as it was. */
  function Understood(input: CutInput, xml: seq<NamedValue>): Request {
    Request(Reread(input.functionName), Reread(KernelOf(input)), Rereads(input.outputs), RereadValues(input.imports),
            RereadTables(input.tables), xml, None, None)
  }

  lemma {:induction false} OutputTags(names: seq<Name>)
    ensures TagsIn(OutputFields(names), {REQUESTED_OUTPUT})
  {
    if names != [] { OutputTags(names[..|names| - 1]); }
  }

  lemma BodyTags(input: CutInput)
    ensures TagsIn(BodyFields(input), DATA_TAGS + {KERNEL, FUNCTION, CALL_CONTEXT, REQUESTED_OUTPUT})
  {
    hide OutputFields, NamedFields, TableFields, XmlFields;
    OutputTags(input.outputs);
    NamedTags(Client, input.imports);
    TableTags(Client, input.tables);
    XmlTags(input.xml);
  }

  lemma {:induction false} NoDeclaredOrder(fields: seq<Field>)
    requires forall k :: 0 <= k < |fields| ==> fields[k].tag != START
    ensures DeclaredOrder(fields) == None
  {
    if fields != [] { NoDeclaredOrder(fields[1..]); }
  }

  lemma WidthsFit(input: CutInput)
    requires Accepted(input)
    ensures forall k :: 0 <= k < |input.tables| ==> WidthOk(Client, input.tables[k].width)
  {
    hide Within, NamesAccepted;
    forall k | 0 <= k < |input.tables| ensures WidthOk(Client, input.tables[k].width) {
      assert TableOk(Client, input.tables[k]);
    }
  }

  function CallRead(input: CutInput): Gathering {
    Nothing().(req := Nothing().req.(functionName := Reread(input.functionName), kernelRelease := Reread(KernelOf(input))))
  }

  lemma CallGathered(input: CutInput, rootName: RootName)
    ensures Gather(Nothing(), CallFields(input), None, rootName) == Some(CallRead(input))
  {
    hide Wide, DecodeName, Gather, KernelOf;
    var kernel, fn := Field(KERNEL, Wide(KernelOf(input))), Field(FUNCTION, Wide(input.functionName));
    assert CallFields(input) == [kernel, fn] + [Field(CALL_CONTEXT, [])];
    GatherSplit(Nothing(), [kernel, fn], [Field(CALL_CONTEXT, [])], None, rootName);
    GatherTwo(Nothing(), kernel, fn, None, rootName);
    GatherOne(CallRead(input), Field(CALL_CONTEXT, []), None, rootName);
  }

  lemma BodyGathered(input: CutInput, rootName: RootName)
    requires Accepted(input)
    ensures Gather(Nothing(), BodyFields(input), None, rootName) ==
            match RootNamed(input.xml, rootName) { case None => None case Some(xml) => Some(Nothing().(req := Understood(input, xml))) }
  {
    hide Gather, OutputFields, NamedFields, TableFields, XmlFields, CallFields, Accepted, Reread, KernelOf;
    var a, b, c, d, e := CallFields(input), OutputFields(input.outputs), NamedFields(Client, input.imports), TableFields(Client, input.tables), XmlFields(input.xml);
    GatherSplit(Nothing(), a + b + c + d, e, None, rootName);
    GatherSplit(Nothing(), a + b + c, d, None, rootName);
    GatherSplit(Nothing(), a + b, c, None, rootName);
    GatherSplit(Nothing(), a, b, None, rootName);
    CallGathered(input, rootName);
    var g1 := CallRead(input);
    OutputsGathered(g1, input.outputs, rootName);
    assert [] + Rereads(input.outputs) == Rereads(input.outputs);
    var g2 := g1.(req := g1.req.(outputs := Rereads(input.outputs)));
    NamedGathered(g2, input.imports, rootName);
    assert [] + RereadValues(input.imports) == RereadValues(input.imports);
    var g3 := g2.(req := g2.req.(imports := RereadValues(input.imports)));
    WidthsFit(input);
    TablesGathered(g3, input.tables, rootName);
    assert [] + RereadTables(input.tables) == RereadTables(input.tables);
    var g4 := g3.(req := g3.req.(tables := RereadTables(input.tables)));
    XmlGathered(g4, input.xml, rootName);
    if xml :| RootNamed(input.xml, rootName) == Some(xml) { assert [] + xml == xml; }
  }

  lemma FieldsUnderstood(input: CutInput, rootName: RootName, inflate: Inflate)
    requires Accepted(input)
    ensures Understand(RequestFields(input), rootName, inflate)
            == if Reread(input.functionName) == [] || RootNamed(input.xml, rootName).None? then None
               else Some(Understood(input, RootNamed(input.xml, rootName).value))
  {
    hide Gather, BodyFields, Accepted, DeclaredOrder, Reread;
    var end := Field(CutFields.END, []);
    BodyTags(input);
    var fields := RequestFields(input);
    forall k | 0 <= k < |fields| ensures fields[k].tag != START {
      if k < |BodyFields(input)| { assert fields[k] == BodyFields(input)[k]; }
    }
    NoDeclaredOrder(fields);
    BodyGathered(input, rootName);
    GatherSplit(Nothing(), BodyFields(input), [end], None, rootName);
    if RootNamed(input.xml, rootName).Some? {
      GatherOne(Nothing().(req := Understood(input, RootNamed(input.xml, rootName).value)), end, None, rootName);
    }
  }

  /** Decoding an encoded request gives the request with every name as its own bytes reread it and XML under the names in
      the documents; it is refused exactly when that leaves no function name or a document has none. */
  lemma RequestDecodes(input: CutInput, rootName: RootName, inflate: Inflate)
    requires Accepted(input)
    ensures DecodeCut(Encoded(input), rootName, inflate)
            == if Reread(input.functionName) == [] || RootNamed(input.xml, rootName).None? then None
               else Some(Understood(input, RootNamed(input.xml, rootName).value))
  {
    hide Understand, BodyFields, ChainBytes, PacketTrailer, DecodeChain, ChainLength, Reread, NamesAccepted, TableOk;
    var end := Field(CutFields.END, []);
    var fields := RequestFields(input);
    BodyTags(input);
    assert NoTag(BodyFields(input), Some(CutFields.END)) by {
      forall k | 0 <= k < |BodyFields(input)| ensures BodyFields(input)[k].tag != CutFields.END {
        assert BodyFields(input)[k].tag in DATA_TAGS + {KERNEL, FUNCTION, CALL_CONTEXT, REQUESTED_OUTPUT};
      }
    }
    var trailer := PacketTrailer(|PREFIX| + ChainLength(fields), input.maxPacketSize);
    PrefixRoundTrip(CONTEXT_END, BodyFields(input), end, trailer, DEFAULT_LIMITS);
    var chain := ChainBytes(CONTEXT_END, fields);
    assert Encoded(input) == PREFIX + chain + trailer;
    assert Encoded(input)[|PREFIX|..] == chain + trailer;
    FieldsUnderstood(input, rootName, inflate);
  }

  /** The request itself, as a server should see it. */
  function Expected(input: CutInput): Request {
    Request(input.functionName, KernelOf(input), input.outputs, input.imports,
            seq(|input.tables|, i requires 0 <= i < |input.tables| => Intact(input.tables[i])), input.xml, None, None)
  }

  function Intact(t: Table): InboundTable { InboundTable(t.name, if t.width >= 0 then t.width else 0, t.rows, None) }

  predicate NamesSurvive(input: CutInput) {
    && Survives(input.functionName)
    && (forall k :: 0 <= k < |input.outputs| ==> Survives(input.outputs[k]))
    && (forall k :: 0 <= k < |input.imports| ==> Survives(input.imports[k].name))
    && (forall k :: 0 <= k < |input.tables| ==> Survives(input.tables[k].name))
  }

  /** The round trip is exact if and only if every name on the wire survives its own encoding and every XML document
      carries the name of its parameter. */
  lemma RequestRoundTripIff(input: CutInput, rootName: RootName, inflate: Inflate)
    requires Accepted(input)
    ensures DecodeCut(Encoded(input), rootName, inflate) == Some(Expected(input)) <==> NamesSurvive(input) && XmlNamed(input.xml, rootName)
  {
    hide DecodeCut, Encoded, Reread, Survives;
    RequestDecodes(input, rootName, inflate);
    KernelSurvives(input);
    FunctionNamed(input);
    RootNamedIff(input.xml, rootName);
    if xml :| RootNamed(input.xml, rootName) == Some(xml) { SameIff(input, xml); }
    hide Accepted;
  }

  lemma FunctionNamed(input: CutInput)
    requires Accepted(input)
    ensures input.functionName != []
  {
    hide Within, TableOk;
  }

  lemma KernelSurvives(input: CutInput)
    requires Accepted(input)
    ensures Reread(KernelOf(input)) == KernelOf(input)
  {
    hide Within, TableOk, Reread;
    PrintableSurvives(KernelOf(input));
    NameRoundTripIff(KernelOf(input));
  }

  lemma SameIff(input: CutInput, xml: seq<NamedValue>)
    requires Reread(KernelOf(input)) == KernelOf(input)
    ensures Understood(input, xml) == Expected(input) <==> NamesSurvive(input) && xml == input.xml
  {
    hide Reread, Survives, KernelOf;
    forall name: Name ensures Reread(name) == name <==> Survives(name) { NameRoundTripIff(name); }
    if Understood(input, xml) == Expected(input) {
      forall k | 0 <= k < |input.outputs| ensures Survives(input.outputs[k]) {
        assert Rereads(input.outputs)[k] == input.outputs[k];
      }
      forall k | 0 <= k < |input.imports| ensures Survives(input.imports[k].name) {
        assert RereadValues(input.imports)[k] == input.imports[k];
      }
      forall k | 0 <= k < |input.tables| ensures Survives(input.tables[k].name) {
        assert RereadTables(input.tables)[k] == Expected(input).tables[k];
      }
    }
    if NamesSurvive(input) {
      assert Rereads(input.outputs) == input.outputs;
      assert RereadValues(input.imports) == input.imports;
      assert RereadTables(input.tables) == Expected(input).tables;
    }
  }

  /** A call of the function named U+0100 is accepted by the client and is a call of U+0001 to the server. */
  lemma CallIsMisread(rootName: RootName, inflate: Inflate)
    ensures var input := CutInput([0x0100], [], [], [], [], [], 0);
            && Accepted(input)
            && DecodeCut(Encoded(input), rootName, inflate) == Some(Expected(input).(functionName := [0x0001]))
            && DecodeCut(Encoded(input), rootName, inflate) != Some(Expected(input))
  {
    hide DecodeCut, Encoded, Accepted, Reread, DecodeName, Wide;
    var input := CutInput([0x0100], [], [], [], [], [], 0);
    BareCallAccepted([0x0100]);
    RequestDecodes(input, rootName, inflate);
    KernelSurvives(input);
    NameMisread();
    assert Rereads(input.outputs) == [] && RereadValues(input.imports) == [] && RereadTables(input.tables) == Expected(input).tables;
  }

  /** A call without parameters is accepted if its name fits. */
  lemma BareCallAccepted(name: Name)
    requires NameFits(name, 40)
    ensures Accepted(CutInput(name, [], [], [], [], [], 0))
  {
    hide WellFormed, Wide;
    var input := CutInput(name, [], [], [], [], [], 0);
    var call := CallFields(input);
    BareFields(input);
    ChainLengthSplit([call[0]], [call[1]] + ([call[2]] + [Field(CutFields.END, [])]));
    ChainLengthSplit([call[1]], [call[2]] + [Field(CutFields.END, [])]);
    ChainLengthSplit([call[2]], [Field(CutFields.END, [])]);
    OneRecord(0, call[0]);
    OneRecord(0, call[1]);
    OneRecord(0, call[2]);
    OneRecord(0, Field(CutFields.END, []));
    assert |NamesOf([])| == 0 && |TableNames([])| == 0;
    hide ChainLength;
  }

  lemma BareFields(input: CutInput)
    requires input.outputs == [] && input.imports == [] && input.tables == [] && input.xml == []
    ensures var call := CallFields(input);
            RequestFields(input) == [call[0]] + ([call[1]] + ([call[2]] + [Field(CutFields.END, [])]))
  {
    hide Wide;
  }
}
