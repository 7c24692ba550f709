/** The server's reading of a CUT request. */
module CutServer {
  import opened Bytes
  import opened CutNames
  import opened FieldChain
  import opened CutFields
  import opened CutRequest

  const START: Tag := 0x0101
  const SESSION: Tag := 0x0514
  const TABLE_ID: Tag := 0x0330
  const COMPACT_FLAG: Tag := 0x4000
  const COMPACT_REQUEST: Tag := 0x4001

  datatype InboundTable = InboundTable(name: Name, width: nat, rows: seq<seq<byte>>, id: Option<seq<byte>>)

  datatype Request = Request(
    functionName: Name, kernelRelease: Name, outputs: seq<Name>, imports: seq<NamedValue>, tables: seq<InboundTable>,
    xml: seq<NamedValue>, compact: Option<seq<byte>>, session: Option<seq<byte>>)

  /** The request so far and what waits for its other half. */
  datatype Gathering = Gathering(
    req: Request, pendingName: Option<Name>, openXml: Option<Name>, xmlData: seq<byte>,
    compressed: bool, compact: Option<seq<byte>>)

  /** The name an XML document carries in its root element, if it has one. */
  type RootName = seq<byte> -> Option<Name>
  type Inflate = seq<byte> -> Option<seq<byte>>

  function Nothing(): Gathering { Gathering(Request([], [], [], [], [], [], None, None), None, None, [], false, None) }

  /** The byte order the first opening field declares: 1 is little-endian, 2 big-endian, anything else unknown. */
  function DeclaredOrder(fields: seq<Field>): Option<bool> {
    if fields == [] then None
    else if fields[0].tag != START || |fields[0].value| < 2 then DeclaredOrder(fields[1..])
    else if fields[0].value[1] == 1 then Some(false)
    else if fields[0].value[1] == 2 then Some(true)
    else None
  }

  function LastTable(tables: seq<InboundTable>): InboundTable
    requires tables != []
  {
    tables[|tables| - 1]
  }

  function WithLastTable(tables: seq<InboundTable>, t: InboundTable): seq<InboundTable>
    requires tables != []
  {
    tables[..|tables| - 1] + [t]
  }

  function Absorb(g: Gathering, f: Field, order: Option<bool>, rootName: RootName): Option<Gathering> {
    var (req, tag) := (g.req, f.tag);
    if tag == KERNEL then Some(g.(req := req.(kernelRelease := DecodeName(f.value, order))))
    else if tag == FUNCTION then Some(g.(req := req.(functionName := DecodeName(f.value, order))))
    else if tag == REQUESTED_OUTPUT then Some(g.(req := req.(outputs := req.outputs + [DecodeName(f.value, order)])))
    else if tag == PARAMETER_NAME then
      if g.pendingName.Some? then None else Some(g.(pendingName := Some(DecodeName(f.value, order))))
    else if tag == PARAMETER_VALUE then
      if g.pendingName.None? then None
      else Some(g.(req := req.(imports := req.imports + [NamedValue(g.pendingName.value, f.value)]), pendingName := None))
    else if tag == TABLE_NAME then
      Some(g.(req := req.(tables := req.tables + [InboundTable(DecodeName(f.value, order), 0, [], None)])))
    else if tag == TABLE_ID then
      if req.tables == [] then Some(g)
      else Some(g.(req := req.(tables := WithLastTable(req.tables, LastTable(req.tables).(id := Some(f.value))))))
    else if tag == SESSION then
      if req.session.None? && |f.value| == 16 then Some(g.(req := req.(session := Some(f.value)))) else Some(g)
    else if tag == COMPACT_FLAG then
      Some(g.(compressed := |f.value| == 2 && f.value[1] == 1, compact := Some(if g.compact.Some? then g.compact.value else [])))
    else if tag == COMPACT_REQUEST then
      Some(g.(compact := Some((if g.compact.Some? then g.compact.value else []) + f.value)))
    else if tag == TABLE_HEADER then
      if req.tables == [] || |f.value| < 8 then None
      else Some(g.(req := req.(tables := WithLastTable(req.tables, LastTable(req.tables).(width := BigEndian(f.value[..4]))))))
    else if tag == TABLE_ROW then
      if req.tables == [] then None
      else
        var t := LastTable(req.tables);
        Some(g.(req := req.(tables := WithLastTable(req.tables, t.(rows := t.rows + [f.value])))))
    else if tag == XRFC_PARAMETER then
      if g.openXml.None? then Some(g.(openXml := Some(DecodeName(f.value, order))))
      else
        var name := rootName(g.xmlData);
        if name.None? || (g.openXml.value != [] && g.openXml.value != name.value) then None
        else Some(g.(req := req.(xml := req.xml + [NamedValue(name.value, g.xmlData)]), openXml := None, xmlData := []))
    else if tag == XRFC_DATA then Some(g.(xmlData := g.xmlData + f.value))
    else Some(g)
  }

  function Gather(g: Gathering, fields: seq<Field>, order: Option<bool>, rootName: RootName): Option<Gathering>
    decreases |fields|
  {
    if fields == [] then Some(g)
    else
      match Absorb(g, fields[0], order, rootName)
      case None => None
      case Some(g') => Gather(g', fields[1..], order, rootName)
  }

  function Complete(g: Gathering, inflate: Inflate): Option<Request> {
    if g.pendingName.Some? || g.req.functionName == [] then None
    else if g.compact.None? then Some(g.req)
    else if !g.compressed then Some(g.req.(compact := g.compact))
    else if inflate(g.compact.value).None? then None
    else Some(g.req.(compact := inflate(g.compact.value)))
  }

  function Understand(fields: seq<Field>, rootName: RootName, inflate: Inflate): Option<Request> {
    match Gather(Nothing(), fields, DeclaredOrder(fields), rootName)
    case None => None
    case Some(g) => Complete(g, inflate)
  }

  function DecodeRequest(body: seq<byte>, previous: Tag, rootName: RootName, inflate: Inflate): Option<Request> {
    match DecodeChain(body, previous, Some(CutFields.END), DEFAULT_LIMITS)
    case None => None
    case Some(decoded) => Understand(decoded.fields, rootName, inflate)
  }

  function DecodeCut(payload: seq<byte>, rootName: RootName, inflate: Inflate): Option<Request> {
    if PREFIX <= payload then DecodeRequest(payload[|PREFIX|..], CONTEXT_END, rootName, inflate) else None
  }

  /** The decoder: one loop over the fields with pending halves. */
  method DecodeCutFunctionRequest(payload: seq<byte>, rootName: RootName, inflate: Inflate) returns (r: Option<Request>)
    ensures r == DecodeCut(payload, rootName, inflate)
  {
    hide DecodeChain, DecodeName, BigEndian, Absorb;
    if !(PREFIX <= payload) {
      return None;
    }
    var decoded := DecodeFieldChainRegion(payload[|PREFIX|..], CONTEXT_END, Some(CutFields.END), DEFAULT_LIMITS);
    if decoded.None? {
      return None;
    }
    var fields := decoded.value.fields;
    var order := DeclaredOrder(fields);
    var g := Nothing();
    assert fields[0..] == fields;
    for k := 0 to |fields|
      invariant Gather(g, fields[k..], order, rootName) == Gather(Nothing(), fields, order, rootName)
    {
      assert fields[k..][0] == fields[k] && fields[k..][1..] == fields[k + 1..];
      var next := Take(g, fields[k], order, rootName);
      if next.None? {
        return None;
      }
      g := next.value;
    }
    assert fields[|fields|..] == [];
    if g.pendingName.Some? {
      return None;
    }
    if g.req.functionName == [] {
      return None;
    }
    if g.compact.None? {
      return Some(g.req);
    }
    if !g.compressed {
      return Some(g.req.(compact := g.compact));
    }
    var inflated := inflate(g.compact.value);
    if inflated.None? {
      return None;
    }
    r := Some(g.req.(compact := inflated));
  }

  /** The switch on one field's tag. */
  method Take(g: Gathering, f: Field, order: Option<bool>, rootName: RootName) returns (r: Option<Gathering>)
    ensures r == Absorb(g, f, order, rootName)
  {
    hide DecodeName, BigEndian;
    var req, tag := g.req, f.tag;
    if tag == KERNEL {
      req := req.(kernelRelease := DecodeName(f.value, order));
    } else if tag == FUNCTION {
      req := req.(functionName := DecodeName(f.value, order));
    } else if tag == REQUESTED_OUTPUT {
      req := req.(outputs := req.outputs + [DecodeName(f.value, order)]);
    } else if tag == PARAMETER_NAME {
      if g.pendingName.Some? {
        return None;
      }
      return Some(g.(pendingName := Some(DecodeName(f.value, order))));
    } else if tag == PARAMETER_VALUE {
      if g.pendingName.None? {
        return None;
      }
      req := req.(imports := req.imports + [NamedValue(g.pendingName.value, f.value)]);
      return Some(g.(req := req, pendingName := None));
    } else if tag == TABLE_NAME {
      req := req.(tables := req.tables + [InboundTable(DecodeName(f.value, order), 0, [], None)]);
    } else if tag == TABLE_ID {
      if |req.tables| > 0 {
        req := req.(tables := WithLastTable(req.tables, LastTable(req.tables).(id := Some(f.value))));
      }
    } else if tag == SESSION {
      if req.session.None? && |f.value| == 16 {
        req := req.(session := Some(f.value));
      }
    } else if tag == COMPACT_FLAG {
      var compressed := |f.value| == 2 && f.value[1] == 1;
      return Some(g.(compressed := compressed, compact := Some(if g.compact.Some? then g.compact.value else [])));
    } else if tag == COMPACT_REQUEST {
      return Some(g.(compact := Some((if g.compact.Some? then g.compact.value else []) + f.value)));
    } else if tag == TABLE_HEADER {
      if |req.tables| == 0 || |f.value| < 8 {
        return None;
      }
      req := req.(tables := WithLastTable(req.tables, LastTable(req.tables).(width := BigEndian(f.value[..4]))));
    } else if tag == TABLE_ROW {
      if |req.tables| == 0 {
        return None;
      }
      var t := LastTable(req.tables);
      req := req.(tables := WithLastTable(req.tables, t.(rows := t.rows + [f.value])));
    } else if tag == XRFC_PARAMETER {
      if g.openXml.None? {
        return Some(g.(openXml := Some(DecodeName(f.value, order))));
      }
      var name := rootName(g.xmlData);
      if name.None? {
        return None;
      }
      if g.openXml.value != [] && g.openXml.value != name.value {
        return None;
      }
      req := req.(xml := req.xml + [NamedValue(name.value, g.xmlData)]);
      return Some(g.(req := req, openXml := None, xmlData := []));
    } else if tag == XRFC_DATA {
      return Some(g.(xmlData := g.xmlData + f.value));
    }
    r := Some(g.(req := req));
  }
}
