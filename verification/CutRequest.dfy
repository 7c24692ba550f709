/** The client's CUT request: encoding, its packet trailer, and what the trailer tells the sender. */
module CutRequest {
  import opened Bytes
  import opened CutNames
  import opened FieldChain
  import opened CutFields

  const CONTEXT_END: Tag := 0x0502
  const KERNEL: Tag := 0x000b
  const FUNCTION: Tag := 0x0102
  const CALL_CONTEXT: Tag := 0x0512
  const REQUESTED_OUTPUT: Tag := 0x0205
  const MAX_FRAGMENT := 28000
  const PREFIX: seq<byte> := [5, 2, 0, 0]

  datatype CutInput = CutInput(functionName: Name, outputs: seq<Name>, imports: seq<NamedValue>, tables: seq<Table>,
                               xml: seq<NamedValue>, kernelRelease: Name, maxPacketSize: nat)

  /** An empty release selects 754. */
  function KernelOf(input: CutInput): Name { if input.kernelRelease == [] then [0x37, 0x35, 0x34] else input.kernelRelease }

  predicate ThreeDigits(name: Name) { |name| == 3 && forall i :: 0 <= i < 3 ==> 0x30 <= name[i] <= 0x39 }

  function OutputFields(names: seq<Name>): seq<Field> {
    if names == [] then [] else OutputFields(names[..|names| - 1]) + [Field(REQUESTED_OUTPUT, Wide(names[|names| - 1]))]
  }

  function CallFields(input: CutInput): seq<Field> {
    [Field(KERNEL, Wide(KernelOf(input))), Field(FUNCTION, Wide(input.functionName)), Field(CALL_CONTEXT, [])]
  }

  /** Everything before End. */
  function BodyFields(input: CutInput): seq<Field> {
    CallFields(input) + OutputFields(input.outputs) + NamedFields(Client, input.imports) + TableFields(Client, input.tables) + XmlFields(input.xml)
  }

  function RequestFields(input: CutInput): seq<Field> { BodyFields(input) + [Field(CutFields.END, [])] }

  predicate NamesAccepted(input: CutInput) {
    && ThreeDigits(KernelOf(input)) && NameFits(input.functionName, 40)
    && Distinct(input.outputs)
    && Distinct(NamesOf(input.imports) + TableNames(input.tables) + NamesOf(input.xml))
    && (forall k :: 0 <= k < |input.outputs| ==> NameFits(input.outputs[k], 30))
    && (forall k :: 0 <= k < |input.imports| ==> NameOk(Client, input.imports[k].name))
  }

  /** Exactly what the encoder takes. */
  predicate Accepted(input: CutInput) {
    && NamesAccepted(input)
    && (forall k :: 0 <= k < |input.tables| ==> TableOk(Client, input.tables[k]))
    && (forall k :: 0 <= k < |input.xml| ==> XmlOk(Client, input.xml[k]))
    && Within(DEFAULT_LIMITS, RequestFields(input))
  }

  /** Streamed packets end in the sentinel alone, compact ones in End, a zero, their size and the packet limit. */
  function PacketTrailer(length: nat, maxPacketSize: nat): seq<byte> {
    if length + 2 > MAX_FRAGMENT then [0xff, 0xff] else CompactTail(length + 2, maxPacketSize)
  }

  function Encoded(input: CutInput): seq<byte>
    requires Accepted(input)
  {
    EncodableRequest(input);
    PREFIX + ChainBytes(CONTEXT_END, RequestFields(input))
    + PacketTrailer(|PREFIX| + ChainLength(RequestFields(input)), input.maxPacketSize)
  }

  lemma EncodableRequest(input: CutInput)
    requires Within(DEFAULT_LIMITS, RequestFields(input))
    ensures AllEncodable(RequestFields(input))
  {
  }

  method WriteOutputs(names: seq<Name>) returns (r: Option<seq<Field>>)
    ensures r.Some? <==> forall k :: 0 <= k < |names| ==> NameFits(names[k], 30)
    ensures r.Some? ==> r.value == OutputFields(names)
  {
    hide Wide, NameFits;
    var fields: seq<Field> := [];
    for k := 0 to |names|
      invariant forall j :: 0 <= j < k ==> NameFits(names[j], 30)
      invariant fields == OutputFields(names[..k])
    {
      var name := UnicodeBytes(names[k], 30);
      if name.None? {
        return None;
      }
      assert names[..k + 1][..k] == names[..k];
      fields := fields + [Field(REQUESTED_OUTPUT, name.value)];
    }
    assert names[..|names|] == names;
    r := Some(fields);
  }

  /** The duplicate checks: per kind, then across the kinds of input. */
  method NamesDistinct(input: CutInput) returns (r: bool)
    ensures r <==> Distinct(input.outputs) && Distinct(NamesOf(input.imports) + TableNames(input.tables) + NamesOf(input.xml))
  {
    var imports, tables, xml := NamesOf(input.imports), TableNames(input.tables), NamesOf(input.xml);
    hide NamesOf, TableNames;
    var all := imports + tables + xml;
    var outputsOk := AllDistinct(input.outputs);
    var importsOk := AllDistinct(imports);
    var tablesOk := AllDistinct(tables);
    var xmlOk := AllDistinct(xml);
    DistinctParts(imports, tables, xml);
    if !outputsOk || !importsOk || !tablesOk || !xmlOk {
      return false;
    }
    r := AllDistinct(all);
  }

  lemma DistinctParts(a: seq<Name>, b: seq<Name>, c: seq<Name>)
    ensures Distinct(a + b + c) ==> Distinct(a) && Distinct(b) && Distinct(c)
  {
    var all := a + b + c;
    if Distinct(all) {
      forall i, j | 0 <= i < j < |a| ensures a[i] != a[j] { assert all[i] == a[i] && all[j] == a[j]; }
      forall i, j | 0 <= i < j < |b| ensures b[i] != b[j] { assert all[|a| + i] == b[i] && all[|a| + j] == b[j]; }
      forall i, j | 0 <= i < j < |c| ensures c[i] != c[j] { assert all[|a + b| + i] == c[i] && all[|a + b| + j] == c[j]; }
    }
  }

  method EncodeCutFunctionRequest(input: CutInput) returns (r: Option<seq<byte>>)
    ensures r.Some? <==> Accepted(input)
    ensures r.Some? ==> r.value == Encoded(input)
  {
    hide TableOk, Distinct, Within, ChainBytes, ChainLength, TableFields, NamedFields, XmlFields, OutputFields, PacketTrailer, NameFits, NameOk, XmlOk;
    var kernel := if input.kernelRelease == [] then [0x37, 0x35, 0x34] else input.kernelRelease;
    if !ThreeDigits(kernel) {
      return None;
    }
    var distinct := NamesDistinct(input);
    if !distinct {
      return None;
    }
    var functionName := UnicodeBytes(input.functionName, 40);
    if functionName.None? {
      return None;
    }
    var fields := [Field(KERNEL, Wide(kernel)), Field(FUNCTION, functionName.value), Field(CALL_CONTEXT, [])];
    var outputs := WriteOutputs(input.outputs);
    if outputs.None? {
      return None;
    }
    var imports := WriteNamed(Client, input.imports);
    if imports.None? {
      return None;
    }
    var tables := WriteTables(Client, input.tables);
    if tables.None? {
      return None;
    }
    var xml := WriteXml(Client, input.xml);
    if xml.None? {
      return None;
    }
    fields := fields + outputs.value + imports.value + tables.value + xml.value + [Field(CutFields.END, [])];
    assert fields == RequestFields(input);
    var chainLength := FieldChainByteLength(fields, DEFAULT_LIMITS);
    if chainLength.None? {
      return None;
    }
    var trailer := PacketTrailer(|PREFIX| + chainLength.value, input.maxPacketSize);
    var chain := EncodeFieldChain(CONTEXT_END, fields, DEFAULT_LIMITS);
    if chain.None? {
      return None;
    }
    r := Some(PREFIX + chain.value + trailer);
  }

  // ---- reading the trailer ----

  datatype Framing = Compact(applicationLength: nat) | Streamed(applicationLength: nat) | Invalid

  /** The 16-bit word that starts back bytes before the end. */
  function WordFromEnd(data: seq<byte>, back: nat): nat
    requires 2 <= back <= |data|
  {
    TagAt(data, |data| - back)
  }

  /** Compact when the size before the packet limit is the packet's own; streamed when only the sentinel follows End. */
  function InspectRequestAppcFraming(data: seq<byte>): Framing {
    if |data| >= 10 && WordFromEnd(data, 10) == CutFields.END && WordFromEnd(data, 8) == 0
       && WordFromEnd(data, 6) == |data| - 8 && |data| - 8 <= MAX_FRAGMENT then Compact(|data| - 8)
    else if |data| > MAX_FRAGMENT && |data| >= 6 && WordFromEnd(data, 6) == CutFields.END && WordFromEnd(data, 4) == 0
            && WordFromEnd(data, 2) == 0xffff then Streamed(|data|)
    else Invalid
  }

  /** A chain that ends in an empty End field ends in its six-byte record. */
  lemma EndRecord(previous: Tag, body: seq<Field>)
    requires AllEncodable(body + [Field(CutFields.END, [])])
    ensures var chain := ChainBytes(previous, body + [Field(CutFields.END, [])]);
            |chain| >= 6 && At(chain, |chain| - 4, U16(CutFields.END) + U16(0))
  {
    hide ChainBytes, U16;
    var end := Field(CutFields.END, []);
    assert AllEncodable(body) by {
      forall k | 0 <= k < |body| ensures Encodable(body[k]) { assert body[k] == (body + [end])[k]; }
    }
    ChainBytesSplit(previous, body, [end]);
    OneRecord(LastTag(previous, body), end);
    var chain := ChainBytes(previous, body + [end]);
    var front := ChainBytes(previous, body) + U16(LastTag(previous, body));
    var tail := U16(CutFields.END) + U16(0);
    assert chain == front + tail;
  }

  function CompactTail(size: nat, maxPacketSize: nat): seq<byte> { U16(CutFields.END) + U16(0) + U16(size) + U32(maxPacketSize) }

  lemma CompactRead(front: seq<byte>, maxPacketSize: nat)
    requires |front| + 2 <= MAX_FRAGMENT
    ensures InspectRequestAppcFraming(front + CompactTail(|front| + 2, maxPacketSize)) == Compact(|front| + 2)
  {
    hide U16, U32;
    var tail, i, n := CompactTail(|front| + 2, maxPacketSize), |front|, |front| + 2;
    var data := front + tail;
    assert At(data, i, tail);
    AtSplit(data, i, U16(CutFields.END) + U16(0) + U16(n), U32(maxPacketSize));
    AtSplit(data, i, U16(CutFields.END) + U16(0), U16(n));
    AtSplit(data, i, U16(CutFields.END), U16(0));
    TagOfU16(data, i, CutFields.END);
    TagOfU16(data, i + 2, 0);
    TagOfU16(data, i + 4, n);
  }

  lemma StreamedRead(front: seq<byte>)
    requires |front| + 2 > MAX_FRAGMENT && At(front, |front| - 4, U16(CutFields.END) + U16(0))
    ensures InspectRequestAppcFraming(front + [0xff, 0xff]) == Streamed(|front| + 2)
  {
    hide U16;
    var data, i, tail := front + [0xff, 0xff], |front| - 4, U16(CutFields.END) + U16(0);
    AtSlice(front, i, tail);
    assert At(data, i, tail) by { assert data[i..i + 4] == front[i..i + 4]; }
    AtSplit(data, i, U16(CutFields.END), U16(0));
    TagOfU16(data, i, CutFields.END);
    TagOfU16(data, i + 2, 0);
  }

  /** The sender reads from the trailer exactly the mode the encoder chose; the two are never confused. */
  lemma FramingAgrees(input: CutInput)
    requires Accepted(input)
    ensures var data := Encoded(input);
            InspectRequestAppcFraming(data) ==
            if |PREFIX| + ChainLength(RequestFields(input)) + 2 > MAX_FRAGMENT then Streamed(|data|) else Compact(|data| - 8)
  {
    hide ChainBytes, RequestFields, Accepted, ChainLength, InspectRequestAppcFraming, U16, U32;
    EndsInEnd(input);
    var chain := ChainBytes(CONTEXT_END, RequestFields(input));
    var front := PREFIX + chain;
    if |front| + 2 > MAX_FRAGMENT {
      AtSlice(chain, |chain| - 4, U16(CutFields.END) + U16(0));
      assert At(front, |front| - 4, U16(CutFields.END) + U16(0)) by {
        assert front[|front| - 4..|front|] == chain[|chain| - 4..|chain|];
      }
      StreamedRead(front);
    } else {
      CompactRead(front, input.maxPacketSize);
    }
  }

  lemma EndsInEnd(input: CutInput)
    requires Accepted(input)
    ensures AllEncodable(RequestFields(input))
    ensures var chain := ChainBytes(CONTEXT_END, RequestFields(input));
            |chain| >= 6 && At(chain, |chain| - 4, U16(CutFields.END) + U16(0))
  {
    hide BodyFields, ChainBytes;
    EncodableRequest(input);
    EndRecord(CONTEXT_END, BodyFields(input));
  }
}
