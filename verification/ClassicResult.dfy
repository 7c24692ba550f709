/** The client's grouping of response fields into scalars, tables and XML values. */
module ClassicResult {
  import opened Bytes
  import opened CutNames
  import opened FieldChain
  import opened CutFields

  const MAX_BYTES := 0x1000_0000
  const MAX_FIELDS := 100_000
  const REQUESTED_OUTPUT: Tag := 0x0205
  /** Envelope fields that carry no result. */
  const SKIPPED: set<Tag> := {0x0503, 0x0514, 0x0420, 0x0512, 0x0130, 0x0667, 0xffff, 0x0331, 0x0336, 0x0104}

  datatype Encoding = Empty | Flat | Structured | Mixed
  datatype ResultTable = ResultTable(name: Name, declaredWidth: int, width: int, encoding: Encoding, rows: seq<seq<byte>>)
  datatype XmlValue = XmlValue(value: seq<byte>, chunks: nat)
  datatype Result = Result(outputs: seq<Name>, scalars: seq<NamedValue>, tables: seq<ResultTable>, xml: seq<XmlValue>)

  // ---- names ----

  function TrimBlanks(name: Name): (r: Name)
    ensures r <= name
  {
    if name != [] && name[|name| - 1] == BLANK then TrimBlanks(name[..|name| - 1]) else name
  }

  predicate ControlFree(name: Name) { forall k :: 0 <= k < |name| ==> name[k] > 0x1f && name[k] != 0x7f }

  /** A name in little-endian, its trailing blanks off; it must not be empty or hold control characters. */
  function ParameterName(v: seq<byte>): Option<Name> {
    if |v| % 2 != 0 then None
    else
      var name := TrimBlanks(Repaired(Narrow(v, false)));
      if name == [] || !ControlFree(name) then None else Some(name)
  }

  /** What makes a name a server wrote come back as itself. */
  predicate Legible(name: Name) { name != [] && BasicPlane(name) && ControlFree(name) && name[|name| - 1] != BLANK }

  lemma LegibleIff(name: Name)
    ensures ParameterName(Written(Server, name)) == Some(name) <==> Legible(name)
  {
    hide Wide, Narrow, Flattened, Repaired, BasicPlane;
    var flat := Flattened(name);
    NarrowWide(flat);
    FlattenedIff(name);
    BasicIsWellFormed(flat);
  }

  // ---- rows ----

  predicate IsRow(f: Field) { f.tag == TABLE_CONTENT || f.tag == TABLE_ROW }

  /** How many of the leading fields are rows, at most count. */
  function RowRun(fields: seq<Field>, count: nat): (n: nat)
    ensures n <= |fields| && n <= count && forall k :: 0 <= k < n ==> IsRow(fields[k])
    decreases |fields|
  {
    if fields == [] || count == 0 || !IsRow(fields[0]) then 0 else 1 + RowRun(fields[1..], count - 1)
  }

  /** A short compressed row is filled up with its last byte. */
  function DecodeRow(width: nat, f: Field): Option<seq<byte>> {
    if f.value == [] || |f.value| > width then None
    else if f.tag != TABLE_ROW || |f.value| == width then Some(f.value)
    else if width > MAX_BYTES then None
    else Some(f.value + seq(width - |f.value|, _ => f.value[|f.value| - 1]))
  }

  method DecodeSimpleCompressedRow(v: seq<byte>, width: nat) returns (r: Option<seq<byte>>)
    ensures r == DecodeRow(width, Field(TABLE_ROW, v))
  {
    if |v| == 0 {
      return None;
    }
    if |v| > width {
      return None;
    }
    if |v| == width {
      return Some(v);
    }
    if width > MAX_BYTES {
      return None;
    }
    var decoded := new byte[width];
    var fill := v[|v| - 1];
    for i := 0 to width
      invariant forall k :: 0 <= k < i ==> decoded[k] == fill
    {
      decoded[i] := fill;
    }
    for i := 0 to |v|
      invariant forall k :: 0 <= k < i ==> decoded[k] == v[k]
      invariant forall k :: i <= k < width ==> decoded[k] == fill
    {
      decoded[i] := v[i];
    }
    assert decoded[..] == v + seq(width - |v|, _ => fill);
    r := Some(decoded[..]);
  }

  function DecodeRows(width: nat, fields: seq<Field>): Option<seq<seq<byte>>> {
    if fields == [] then Some([])
    else
      var front := DecodeRows(width, fields[..|fields| - 1]);
      var row := DecodeRow(width, fields[|fields| - 1]);
      if front.None? || row.None? then None else Some(front.value + [row.value])
  }

  predicate HasPlain(fields: seq<Field>) { exists k :: 0 <= k < |fields| && fields[k].tag != TABLE_ROW }
  predicate HasCompressed(fields: seq<Field>) { exists k :: 0 <= k < |fields| && fields[k].tag == TABLE_ROW }

  function EncodingOf(fields: seq<Field>): Encoding {
    if HasPlain(fields) && HasCompressed(fields) then Mixed
    else if HasPlain(fields) then Flat
    else if HasCompressed(fields) then Structured
    else Empty
  }

  datatype TableHead = TableHead(width: nat, count: nat)

  function DecodeTableHeader(v: seq<byte>): Option<TableHead> {
    if |v| != 8 then None else Some(TableHead(BigEndian(v[..4]), BigEndian(v[4..])))
  }

  /** The table whose name and header stand first, and how many fields it takes. */
  function ReadTable(fields: seq<Field>, name: Name): (r: Option<(ResultTable, nat)>)
    requires |fields| >= 2
    ensures r.Some? ==> 2 <= r.value.1 <= |fields|
  {
    var header := DecodeTableHeader(fields[1].value);
    if header.None? then None
    else
      var n := RowRun(fields[2..], header.value.count);
      var rows := DecodeRows(header.value.width, fields[2..2 + n]);
      if rows.None? || n != header.value.count then None
      else Some((ResultTable(name, header.value.width, if rows.value == [] then header.value.width else |rows.value[0]|,
                             EncodingOf(fields[2..2 + n]), rows.value), 2 + n))
  }

  // ---- XML values ----

  function DataRun(fields: seq<Field>): (n: nat)
    ensures n <= |fields| && forall k :: 0 <= k < n ==> fields[k].tag == XRFC_DATA
    decreases |fields|
  {
    if fields == [] || fields[0].tag != XRFC_DATA then 0 else 1 + DataRun(fields[1..])
  }

  function ValuesOf(fields: seq<Field>): seq<seq<byte>> { seq(|fields|, i requires 0 <= i < |fields| => fields[i].value) }

  predicate IsEdge(f: Field) { f.tag == XRFC_PARAMETER && f.value == [] }

  function ReadXml(fields: seq<Field>): (r: Option<(XmlValue, nat)>)
    requires |fields| >= 1
    ensures r.Some? ==> 3 <= r.value.1 <= |fields|
  {
    var n := DataRun(fields[1..]);
    var chunks := ValuesOf(fields[1..1 + n]);
    if fields[0].value != [] || n == 0 || [] in chunks || |Flatten(chunks)| > MAX_BYTES then None
    else if 1 + n >= |fields| || !IsEdge(fields[1 + n]) then None
    else Some((XmlValue(Flatten(chunks), n), n + 2))
  }

  // ---- the walk ----

  datatype Walk = Walk(result: Result, names: set<Name>)

  function Read(fields: seq<Field>, w: Walk): Option<Result>
    decreases |fields|
  {
    if fields == [] then Some(w.result)
    else
      var (f, r) := (fields[0], w.result);
      if f.tag in SKIPPED then Read(fields[1..], w)
      else if f.tag == REQUESTED_OUTPUT then
        match ParameterName(f.value)
        case None => None
        case Some(name) => Read(fields[1..], w.(result := r.(outputs := r.outputs + [name])))
      else if f.tag == XRFC_PARAMETER then
        match ReadXml(fields)
        case None => None
        case Some((x, n)) => Read(fields[n..], w.(result := r.(xml := r.xml + [x])))
      else if f.tag == PARAMETER_NAME then
        match ParameterName(f.value)
        case None => None
        case Some(name) =>
          if |fields| < 2 || fields[1].tag != PARAMETER_VALUE || name in w.names then None
          else Read(fields[2..], Walk(r.(scalars := r.scalars + [NamedValue(name, fields[1].value)]), w.names + {name}))
      else if f.tag == TABLE_NAME then
        match ParameterName(f.value)
        case None => None
        case Some(name) =>
          if |fields| < 2 || fields[1].tag != TABLE_HEADER || name in w.names then None
          else
            match ReadTable(fields, name)
            case None => None
            case Some((t, n)) => Read(fields[n..], Walk(r.(tables := r.tables + [t]), w.names + {name}))
      else None
  }

  // ---- the checks before the walk ----

  function ValueBytes(fields: seq<Field>): nat {
    if fields == [] then 0 else ValueBytes(fields[..|fields| - 1]) + |fields[|fields| - 1].value|
  }

  predicate SizesOk(fields: seq<Field>) { |fields| <= MAX_FIELDS && ValueBytes(fields) <= MAX_BYTES }

  function RowBytes(width: nat, f: Field): nat { if f.tag == TABLE_ROW then width else |f.value| }

  function RowsBytes(width: nat, fields: seq<Field>): nat {
    if fields == [] then 0 else RowsBytes(width, fields[..|fields| - 1]) + RowBytes(width, fields[|fields| - 1])
  }

  predicate RowsOk(width: nat, fields: seq<Field>) { forall k :: 0 <= k < |fields| ==> DecodeRow(width, fields[k]).Some? }

  /** Bytes the named tables will take, if every one is well-formed and they stay within the limits. */
  function TablesBytes(fields: seq<Field>, total: nat): Option<nat>
    decreases |fields|
  {
    if fields == [] then Some(total)
    else if fields[0].tag != TABLE_NAME || |fields| < 2 || fields[1].tag != TABLE_HEADER then TablesBytes(fields[1..], total)
    else
      var header := DecodeTableHeader(fields[1].value);
      if ParameterName(fields[0].value).None? || header.None? then None
      else
        var n := RowRun(fields[2..], header.value.count);
        var rows := fields[2..2 + n];
        var bytes := RowsBytes(header.value.width, rows);
        if !RowsOk(header.value.width, rows) || n != header.value.count || bytes > MAX_BYTES || total + bytes > MAX_BYTES then None
        else TablesBytes(fields[2 + n..], total + bytes)
  }

  function GroupResult(fields: seq<Field>): Option<Result> {
    if !SizesOk(fields) || TablesBytes(fields, 0).None? then None
    else Read(fields, Walk(Result([], [], [], []), {}))
  }

  // ---- the loops ----

  lemma {:induction false} ValueBytesSplit(a: seq<Field>, b: seq<Field>)
    ensures ValueBytes(a + b) == ValueBytes(a) + ValueBytes(b)
    decreases |b|
  {
    if b == [] {
      assert a + b == a;
    } else {
      var n := |b| - 1;
      assert (a + b)[..|a + b| - 1] == a + b[..n];
      ValueBytesSplit(a, b[..n]);
    }
  }

  method PreflightResultBytes(fields: seq<Field>) returns (ok: bool)
    ensures ok == SizesOk(fields)
  {
    if |fields| > MAX_FIELDS {
      return false;
    }
    var valueBytes := 0;
    for k := 0 to |fields|
      invariant valueBytes == ValueBytes(fields[..k]) <= MAX_BYTES
    {
      assert fields[..k + 1][..k] == fields[..k];
      valueBytes := valueBytes + |fields[k].value|;
      if valueBytes > MAX_BYTES {
        ValueBytesSplit(fields[..k + 1], fields[k + 1..]);
        assert fields == fields[..k + 1] + fields[k + 1..];
        return false;
      }
    }
    assert fields[..|fields|] == fields;
    ok := true;
  }

  /** Whether a run of k rows goes on. */
  lemma {:induction false} RunGoesOn(rest: seq<Field>, k: nat, count: nat)
    requires k <= |rest| && k <= count && forall j :: 0 <= j < k ==> IsRow(rest[j])
    ensures var n := RowRun(rest, count);
            if k < count && k < |rest| && IsRow(rest[k]) then k < n else k == n
    decreases k
  {
    hide IsRow;
    if k > 0 {
      forall j | 0 <= j < k - 1 ensures IsRow(rest[1..][j]) { assert rest[1..][j] == rest[j + 1]; }
      RunGoesOn(rest[1..], k - 1, count - 1);
    }
  }

  /** One row more. */
  lemma NextRow(width: nat, rest: seq<Field>, k: nat)
    requires k < |rest|
    ensures RowsOk(width, rest[..k + 1]) <==> RowsOk(width, rest[..k]) && DecodeRow(width, rest[k]).Some?
    ensures RowsBytes(width, rest[..k + 1]) == RowsBytes(width, rest[..k]) + RowBytes(width, rest[k])
    ensures HasPlain(rest[..k + 1]) <==> HasPlain(rest[..k]) || rest[k].tag != TABLE_ROW
    ensures HasCompressed(rest[..k + 1]) <==> HasCompressed(rest[..k]) || rest[k].tag == TABLE_ROW
    ensures var front, row := DecodeRows(width, rest[..k]), DecodeRow(width, rest[k]);
            DecodeRows(width, rest[..k + 1]) == if front.None? || row.None? then None else Some(front.value + [row.value])
  {
    hide DecodeRow;
    var all, front := rest[..k + 1], rest[..k];
    assert all[..k] == front && all[k] == rest[k];
    assert forall j :: 0 <= j < k ==> all[j] == front[j];
  }

  lemma NoRows(width: nat, rest: seq<Field>)
    ensures RowsOk(width, rest[..0]) && RowsBytes(width, rest[..0]) == 0 && DecodeRows(width, rest[..0]) == Some([])
    ensures !HasPlain(rest[..0]) && !HasCompressed(rest[..0])
  {
  }

  lemma BadRow(width: nat, rest: seq<Field>, k: nat, n: nat)
    requires k < n <= |rest| && DecodeRow(width, rest[k]).None?
    ensures !RowsOk(width, rest[..n]) && DecodeRows(width, rest[..n]) == None
    decreases n
  {
    assert rest[..n][k] == rest[k];
    if k < n - 1 { BadRow(width, rest, k, n - 1); assert rest[..n][..n - 1] == rest[..n - 1]; }
  }

  /** The leading rows: how many, how many bytes they take, or that one is malformed. */
  method CheckRows(rest: seq<Field>, head: TableHead) returns (r: Option<(nat, nat)>)
    ensures var n := RowRun(rest, head.count);
            r == if RowsOk(head.width, rest[..n]) then Some((n, RowsBytes(head.width, rest[..n]))) else None
  {
    hide DecodeRow, RowRun, RowsOk, RowsBytes;
    var rowCount: nat, bytes: nat := 0, 0;
    NoRows(head.width, rest);
    while rowCount < head.count && rowCount < |rest| && (rest[rowCount].tag == TABLE_CONTENT || rest[rowCount].tag == TABLE_ROW)
      invariant rowCount <= head.count && rowCount <= |rest| && forall j :: 0 <= j < rowCount ==> IsRow(rest[j])
      invariant RowsOk(head.width, rest[..rowCount]) && bytes == RowsBytes(head.width, rest[..rowCount])
      decreases head.count - rowCount
    {
      var row := rest[rowCount];
      RunGoesOn(rest, rowCount, head.count);
      NextRow(head.width, rest, rowCount);
      if DecodeRow(head.width, row).None? {
        BadRow(head.width, rest, rowCount, RowRun(rest, head.count));
        return None;
      }
      bytes := bytes + RowBytes(head.width, row);
      rowCount := rowCount + 1;
    }
    RunGoesOn(rest, rowCount, head.count);
    r := Some((rowCount, bytes));
  }

  /** One step of the preflight, at index i. */
  lemma PreflightStep(fields: seq<Field>, i: nat, total: nat)
    requires i < |fields|
    ensures fields[i].tag != TABLE_NAME || i + 1 >= |fields| || fields[i + 1].tag != TABLE_HEADER ==>
              TablesBytes(fields[i..], total) == TablesBytes(fields[i + 1..], total)
    ensures fields[i].tag == TABLE_NAME && i + 1 < |fields| && fields[i + 1].tag == TABLE_HEADER ==>
              var head := DecodeTableHeader(fields[i + 1].value);
              TablesBytes(fields[i..], total) ==
              if ParameterName(fields[i].value).None? || head.None? then None
              else
                var n := RowRun(fields[i + 2..], head.value.count);
                var rows := fields[i + 2..][..n];
                var bytes := RowsBytes(head.value.width, rows);
                if !RowsOk(head.value.width, rows) || n != head.value.count || bytes > MAX_BYTES || total + bytes > MAX_BYTES then None
                else TablesBytes(fields[i + 2 + n..], total + bytes)
  {
    hide RowRun, RowsOk, RowsBytes, ParameterName, DecodeTableHeader;
    var rest := fields[i..];
    assert rest[1..] == fields[i + 1..];
    if i + 1 < |fields| && DecodeTableHeader(fields[i + 1].value).Some? {
      assert rest[2..] == fields[i + 2..];
      var n := RowRun(fields[i + 2..], DecodeTableHeader(fields[i + 1].value).value.count);
      assert rest[2..2 + n] == fields[i + 2..][..n] && rest[2 + n..] == fields[i + 2 + n..];
    }
  }

  method PreflightTableBytes(fields: seq<Field>) returns (ok: bool)
    ensures ok == TablesBytes(fields, 0).Some?
  {
    hide RowRun, RowsOk, RowsBytes, ParameterName, DecodeTableHeader, TablesBytes;
    var total: nat, index: nat := 0, 0;
    assert fields[0..] == fields;
    while index < |fields|
      invariant index <= |fields| && TablesBytes(fields[index..], total) == TablesBytes(fields, 0)
      decreases |fields| - index
    {
      PreflightStep(fields, index, total);
      if fields[index].tag != TABLE_NAME {
        index := index + 1;
        continue;
      }
      if index + 1 >= |fields| || fields[index + 1].tag != TABLE_HEADER {
        index := index + 1;
        continue;
      }
      var name := ParameterName(fields[index].value);
      if name.None? {
        return false;
      }
      var head := DecodeTableHeader(fields[index + 1].value);
      if head.None? {
        return false;
      }
      var rows := CheckRows(fields[index + 2..], head.value);
      if rows.None? {
        return false;
      }
      if rows.value.0 != head.value.count {
        return false;
      }
      if rows.value.1 > MAX_BYTES {
        return false;
      }
      total := total + rows.value.1;
      if total > MAX_BYTES {
        return false;
      }
      index := index + 2 + rows.value.0;
    }
    NoTablesLeft(fields, total);
    ok := true;
  }

  lemma NoTablesLeft(fields: seq<Field>, total: nat)
    ensures TablesBytes(fields[|fields|..], total) == Some(total)
  {
  }

  // ---- the walk in a loop ----

  lemma {:induction false} DataGoesOn(rest: seq<Field>, k: nat)
    requires k <= |rest| && forall j :: 0 <= j < k ==> rest[j].tag == XRFC_DATA
    ensures var n := DataRun(rest);
            if k < |rest| && rest[k].tag == XRFC_DATA then k < n else k == n
    decreases k
  {
    if k > 0 {
      forall j | 0 <= j < k - 1 ensures rest[1..][j].tag == XRFC_DATA { assert rest[1..][j] == rest[j + 1]; }
      DataGoesOn(rest[1..], k - 1);
    }
  }

  lemma NextChunk(rest: seq<Field>, k: nat)
    requires k < |rest|
    ensures ValuesOf(rest[..k + 1]) == ValuesOf(rest[..k]) + [rest[k].value]
    ensures Flatten(ValuesOf(rest[..k + 1])) == Flatten(ValuesOf(rest[..k])) + rest[k].value
  {
    FlattenSplit(ValuesOf(rest[..k]), [rest[k].value]);
    FlattenOne(rest[k].value);
    assert ValuesOf(rest[..k + 1]) == ValuesOf(rest[..k]) + [rest[k].value];
  }

  lemma NoChunks(rest: seq<Field>)
    ensures ValuesOf(rest[..0]) == [] && Flatten([]) == []
  {
  }

  /** More chunks only make it longer and keep what is wrong with it. */
  lemma ChunkPrefix(rest: seq<Field>, k: nat, n: nat)
    requires k <= n <= |rest|
    ensures |Flatten(ValuesOf(rest[..k]))| <= |Flatten(ValuesOf(rest[..n]))|
    ensures [] in ValuesOf(rest[..k]) ==> [] in ValuesOf(rest[..n])
    decreases n
  {
    hide Flatten, ValuesOf;
    if k < n {
      ChunkPrefix(rest, k, n - 1);
      NextChunk(rest, n - 1);
    }
  }

  /** The chunks behind an opening boundary. */
  method TakeChunks(rest: seq<Field>) returns (r: Option<seq<seq<byte>>>)
    ensures var chunks := ValuesOf(rest[..DataRun(rest)]);
            r == if [] in chunks || |Flatten(chunks)| > MAX_BYTES then None else Some(chunks)
  {
    hide Flatten, DataRun, ValuesOf;
    var chunks: seq<seq<byte>> := [];
    var byteLength: nat := 0;
    NoChunks(rest);
    while |chunks| < |rest| && rest[|chunks|].tag == XRFC_DATA
      invariant |chunks| <= |rest| && chunks == ValuesOf(rest[..|chunks|]) && [] !in chunks
      invariant forall j :: 0 <= j < |chunks| ==> rest[j].tag == XRFC_DATA
      invariant byteLength == |Flatten(chunks)| <= MAX_BYTES
      decreases |rest| - |chunks|
    {
      var k := |chunks|;
      var chunk := rest[k].value;
      DataGoesOn(rest, k);
      NextChunk(rest, k);
      ChunkPrefix(rest, k + 1, DataRun(rest));
      if |chunk| == 0 {
        assert chunk in ValuesOf(rest[..k + 1]);
        return None;
      }
      byteLength := byteLength + |chunk|;
      if byteLength > MAX_BYTES {
        return None;
      }
      chunks := chunks + [chunk];
    }
    DataGoesOn(rest, |chunks|);
    r := Some(chunks);
  }

  /** The XML value whose opening boundary stands first. */
  method TakeXml(fields: seq<Field>) returns (r: Option<(XmlValue, nat)>)
    requires |fields| >= 1
    ensures r == ReadXml(fields)
  {
    hide Flatten, DataRun;
    if |fields[0].value| != 0 {
      return None;
    }
    var chunks := TakeChunks(fields[1..]);
    assert fields[1..][..DataRun(fields[1..])] == fields[1..1 + DataRun(fields[1..])];
    if chunks.None? {
      return None;
    }
    if |chunks.value| == 0 {
      return None;
    }
    var index := 1 + |chunks.value|;
    if index >= |fields| || fields[index].tag != XRFC_PARAMETER {
      return None;
    }
    if |fields[index].value| != 0 {
      return None;
    }
    r := Some((XmlValue(Flatten(chunks.value), |chunks.value|), |chunks.value| + 2));
  }

  /** The rows behind a header, decoded. */
  method TakeRows(rest: seq<Field>, head: TableHead) returns (r: Option<seq<seq<byte>>>, encoding: Encoding)
    ensures var n := RowRun(rest, head.count);
            r == DecodeRows(head.width, rest[..n]) && (r.Some? ==> |r.value| == n && encoding == EncodingOf(rest[..n]))
  {
    hide DecodeRow, RowRun, DecodeRows, HasPlain, HasCompressed;
    var rows: seq<seq<byte>> := [];
    var plain, compressed := false, false;
    encoding := Empty;
    NoRows(head.width, rest);
    while |rows| < head.count && |rows| < |rest| && (rest[|rows|].tag == TABLE_CONTENT || rest[|rows|].tag == TABLE_ROW)
      invariant |rows| <= head.count && |rows| <= |rest| && forall j :: 0 <= j < |rows| ==> IsRow(rest[j])
      invariant DecodeRows(head.width, rest[..|rows|]) == Some(rows)
      invariant plain == HasPlain(rest[..|rows|]) && compressed == HasCompressed(rest[..|rows|])
      decreases head.count - |rows|
    {
      var k := |rows|;
      RunGoesOn(rest, k, head.count);
      NextRow(head.width, rest, k);
      var row;
      if rest[k].tag == TABLE_ROW {
        compressed := true;
        row := DecodeSimpleCompressedRow(rest[k].value, head.width);
        assert rest[k] == Field(TABLE_ROW, rest[k].value);
      } else {
        plain := true;
        row := DecodeRow(head.width, rest[k]);
      }
      if row.None? {
        BadRow(head.width, rest, k, RowRun(rest, head.count));
        return None, Empty;
      }
      rows := rows + [row.value];
    }
    RunGoesOn(rest, |rows|, head.count);
    encoding := if plain && compressed then Mixed else if plain then Flat else if compressed then Structured else Empty;
    r := Some(rows);
  }

  /** The table whose name and header stand first. */
  method TakeTable(fields: seq<Field>, name: Name) returns (r: Option<(ResultTable, nat)>)
    requires |fields| >= 2
    ensures r == ReadTable(fields, name)
  {
    hide RowRun, DecodeRows, EncodingOf, DecodeTableHeader;
    var head := DecodeTableHeader(fields[1].value);
    if head.None? {
      return None;
    }
    var rows, encoding := TakeRows(fields[2..], head.value);
    ghost var n := RowRun(fields[2..], head.value.count);
    assert fields[2..][..n] == fields[2..2 + n];
    if rows.None? {
      return None;
    }
    if |rows.value| != head.value.count {
      return None;
    }
    var width := head.value.width;
    if |rows.value| > 0 {
      width := |rows.value[0]|;
    }
    r := Some((ResultTable(name, head.value.width, width, encoding, rows.value), 2 + |rows.value|));
  }

  method DecodeResult(fields: seq<Field>) returns (r: Option<Result>)
    ensures r == GroupResult(fields)
  {
    hide SizesOk, TablesBytes, ReadXml, ReadTable, ParameterName;
    var sizes := PreflightResultBytes(fields);
    if !sizes {
      return None;
    }
    var tables := PreflightTableBytes(fields);
    if !tables {
      return None;
    }
    var result := Result([], [], [], []);
    var names: set<Name> := {};
    var index: nat := 0;
    assert fields[0..] == fields;
    while index < |fields|
      invariant index <= |fields|
      invariant Read(fields[index..], Walk(result, names)) == Read(fields, Walk(Result([], [], [], []), {}))
      decreases |fields| - index
    {
      var rest := fields[index..];
      var f := fields[index];
      assert rest[1..] == fields[index + 1..];
      if f.tag in SKIPPED {
        index := index + 1;
        continue;
      }
      if f.tag == REQUESTED_OUTPUT {
        var name := ParameterName(f.value);
        if name.None? {
          return None;
        }
        result := result.(outputs := result.outputs + [name.value]);
        index := index + 1;
      } else if f.tag == XRFC_PARAMETER {
        var xml := TakeXml(rest);
        if xml.None? {
          return None;
        }
        assert rest[xml.value.1..] == fields[index + xml.value.1..];
        result := result.(xml := result.xml + [xml.value.0]);
        index := index + xml.value.1;
      } else if f.tag == PARAMETER_NAME {
        var name := ParameterName(f.value);
        if name.None? {
          return None;
        }
        if index + 1 >= |fields| || fields[index + 1].tag != PARAMETER_VALUE {
          return None;
        }
        if name.value in names {
          return None;
        }
        assert rest[2..] == fields[index + 2..];
        names := names + {name.value};
        result := result.(scalars := result.scalars + [NamedValue(name.value, fields[index + 1].value)]);
        index := index + 2;
      } else if f.tag == TABLE_NAME {
        var name := ParameterName(f.value);
        if name.None? {
          return None;
        }
        if index + 1 >= |fields| || fields[index + 1].tag != TABLE_HEADER {
          return None;
        }
        if name.value in names {
          return None;
        }
        var table := TakeTable(rest, name.value);
        if table.None? {
          return None;
        }
        assert rest[table.value.1..] == fields[index + table.value.1..];
        names := names + {name.value};
        result := result.(tables := result.tables + [table.value.0]);
        index := index + table.value.1;
      } else {
        return None;
      }
    }
    assert fields[|fields|..] == [];
    r := Some(result);
  }
}
