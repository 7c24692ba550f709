/** The field lists that carry named values, tables and XML parameters in both directions. */
module CutFields {
  import opened Bytes
  import opened CutNames
  import opened FieldChain

  const PARAMETER_NAME: Tag := 0x0201
  const PARAMETER_VALUE: Tag := 0x0203
  const TABLE_NAME: Tag := 0x0301
  const TABLE_HEADER: Tag := 0x0302
  const TABLE_CONTENT: Tag := 0x0303
  const TABLE_ROW: Tag := 0x0304
  const XRFC_PARAMETER: Tag := 0x3c02
  const XRFC_DATA: Tag := 0x3c05
  const END: Tag := 0xffff
  const XML_CHUNK := 16384

  datatype NamedValue = NamedValue(name: Name, value: seq<byte>)
  datatype Table = Table(name: Name, width: int, rows: seq<seq<byte>>)

  datatype Side = Client | Server

  /** The bytes of a name: a client writes its UTF-16, a server one unit a character. */
  function Written(side: Side, name: Name): seq<byte> {
    match side
    case Client => Wide(name)
    case Server => Wide(Flattened(name))
  }

  function ValueFields(side: Side, v: NamedValue): seq<Field> {
    [Field(PARAMETER_NAME, Written(side, v.name)), Field(PARAMETER_VALUE, v.value)]
  }

  function NamedFields(side: Side, values: seq<NamedValue>): seq<Field> {
    if values == [] then [] else NamedFields(side, values[..|values| - 1]) + ValueFields(side, values[|values| - 1])
  }

  function FieldsOf(tag: Tag, values: seq<seq<byte>>): seq<Field> {
    seq(|values|, i requires 0 <= i < |values| => Field(tag, values[i]))
  }

  /** The row width and the row count, four bytes each. */
  function TableHeader(t: Table): seq<byte> { U32(t.width % 0x1_0000_0000) + U32(|t.rows|) }

  function OneTable(side: Side, t: Table): seq<Field> {
    [Field(TABLE_NAME, Written(side, t.name)), Field(TABLE_HEADER, TableHeader(t))] + FieldsOf(TABLE_ROW, t.rows)
  }

  function TableFields(side: Side, tables: seq<Table>): seq<Field> {
    if tables == [] then [] else TableFields(side, tables[..|tables| - 1]) + OneTable(side, tables[|tables| - 1])
  }

  /** The XML between two empty boundaries, in chunks; the name is not written. */
  function OneXml(value: seq<byte>): seq<Field> {
    [Field(XRFC_PARAMETER, [])] + FieldsOf(XRFC_DATA, Slices(value, XML_CHUNK)) + [Field(XRFC_PARAMETER, [])]
  }

  function XmlFields(params: seq<NamedValue>): seq<Field> {
    if params == [] then [] else XmlFields(params[..|params| - 1]) + OneXml(params[|params| - 1].value)
  }

  // ---- what each side accepts ----

  function Utf8Length(name: Name): nat {
    if name == [] then 0
    else if Paired(name) then 4 + Utf8Length(name[2..])
    else (if name[0] < 0x80 then 1 else if name[0] < 0x800 then 2 else 3) + Utf8Length(name[1..])
  }

  predicate NameFits(name: Name, max: nat) { 1 <= |name| <= max && WellFormed(name) && 0 !in name }

  /** A client counts UTF-16 units, checks the text and forbids NUL; a server counts UTF-8 bytes. */
  predicate NameOk(side: Side, name: Name) {
    match side
    case Client => NameFits(name, 30)
    case Server => name != [] && Utf8Length(name) <= 30
  }

  /** A server does not look at the name of an XML parameter, which is not written. */
  predicate XmlOk(side: Side, v: NamedValue) { v.value != [] && (side == Client ==> NameOk(side, v.name)) }

  predicate WidthOk(side: Side, width: int) { side == Client ==> 0 <= width <= 0xffff_ffff }

  /** A server takes a width of zero to mean any. */
  predicate RowFits(side: Side, width: int, length: nat) { length == width || (side == Server && width == 0) }

  predicate RowsFit(side: Side, t: Table) { forall k :: 0 <= k < |t.rows| ==> RowFits(side, t.width, |t.rows[k]|) }

  predicate TableOk(side: Side, t: Table) { WidthOk(side, t.width) && NameOk(side, t.name) && RowsFit(side, t) }

  // ---- the loops that write them ----

  /** unicodeBytes: two bytes a unit. */
  method UnicodeBytes(name: Name, max: nat) returns (r: Option<seq<byte>>)
    ensures r == if NameFits(name, max) then Some(Wide(name)) else None
  {
    hide Wide, WellFormed;
    if !NameFits(name, max) {
      return None;
    }
    var out := Wide(name[..0]);
    for i := 0 to |name|
      invariant out == Wide(name[..i])
    {
      WideOne(name[i]);
      WideSplit(name[..i], [name[i]]);
      assert name[..i + 1] == name[..i] + [name[i]];
      out := out + [name[i] % 256, name[i] / 256];
    }
    assert name[..|name|] == name;
    r := Some(out);
  }

  lemma WideOne(u: Unit)
    ensures Wide([u]) == [u % 256, u / 256]
  {
  }

  /** encodeUTF16LE: two bytes a character, whatever the character. */
  method EncodeUtf16Le(name: Name) returns (out: seq<byte>)
    ensures out == Wide(Flattened(name))
  {
    hide Wide;
    assert name[0..] == name;
    out := [];
    var i := 0;
    while i < |name|
      invariant 0 <= i <= |name|
      invariant out + Wide(Flattened(name[i..])) == Wide(Flattened(name))
    {
      var rest := name[i..];
      ghost var before := out;
      var n, u := 1, Plain(name[i]);
      if Paired(rest) {
        n, u := 2, REPLACEMENT;
      }
      assert rest[n..] == name[i + n..];
      WideOne(u);
      WideSplit([u], Flattened(name[i + n..]));
      assert Flattened(rest) == [u] + Flattened(name[i + n..]);
      out := out + [u % 256, u / 256];
      assert before + ([u % 256, u / 256] + Wide(Flattened(name[i + n..]))) == out + Wide(Flattened(name[i + n..]));
      i := i + n;
    }
    NothingWritten();
    assert name[i..] == [] && out + [] == out;
  }

  lemma NothingWritten()
    ensures Wide([]) == []
  {
  }

  method WriteName(side: Side, name: Name) returns (r: Option<seq<byte>>)
    ensures r == if NameOk(side, name) then Some(Written(side, name)) else None
  {
    hide Wide, Flattened, NameFits;
    if side == Client {
      r := UnicodeBytes(name, 30);
    } else if !NameOk(side, name) {
      r := None;
    } else {
      var bytes := EncodeUtf16Le(name);
      r := Some(bytes);
    }
  }

  method WriteNamed(side: Side, values: seq<NamedValue>) returns (r: Option<seq<Field>>)
    ensures r.Some? <==> forall k :: 0 <= k < |values| ==> NameOk(side, values[k].name)
    ensures r.Some? ==> r.value == NamedFields(side, values)
  {
    hide NameOk, Written;
    var fields: seq<Field> := [];
    for k := 0 to |values|
      invariant forall j :: 0 <= j < k ==> NameOk(side, values[j].name)
      invariant fields == NamedFields(side, values[..k])
    {
      var name := WriteName(side, values[k].name);
      if name.None? {
        return None;
      }
      assert values[..k + 1][..k] == values[..k];
      fields := fields + [Field(PARAMETER_NAME, name.value), Field(PARAMETER_VALUE, values[k].value)];
    }
    assert values[..|values|] == values;
    r := Some(fields);
  }

  /** One table after the fields already written; its rows are checked one by one. */
  method WriteTable(side: Side, written: seq<Field>, name: seq<byte>, t: Table) returns (r: Option<seq<Field>>)
    requires name == Written(side, t.name)
    ensures r.Some? <==> RowsFit(side, t)
    ensures r.Some? ==> r.value == written + OneTable(side, t)
  {
    hide TableHeader, Written;
    var head := [Field(TABLE_NAME, name), Field(TABLE_HEADER, TableHeader(t))];
    var fields := written + head;
    ghost var start := fields;
    for k := 0 to |t.rows|
      invariant forall j :: 0 <= j < k ==> RowFits(side, t.width, |t.rows[j]|)
      invariant fields == start + FieldsOf(TABLE_ROW, t.rows[..k])
    {
      if !RowFits(side, t.width, |t.rows[k]|) {
        return None;
      }
      assert FieldsOf(TABLE_ROW, t.rows[..k + 1]) == FieldsOf(TABLE_ROW, t.rows[..k]) + [Field(TABLE_ROW, t.rows[k])];
      fields := fields + [Field(TABLE_ROW, t.rows[k])];
    }
    assert t.rows[..|t.rows|] == t.rows;
    assert written + head + FieldsOf(TABLE_ROW, t.rows) == written + (head + FieldsOf(TABLE_ROW, t.rows));
    r := Some(fields);
  }

  method WriteTables(side: Side, tables: seq<Table>) returns (r: Option<seq<Field>>)
    ensures r.Some? <==> forall k :: 0 <= k < |tables| ==> TableOk(side, tables[k])
    ensures r.Some? ==> r.value == TableFields(side, tables)
  {
    hide OneTable, NameOk, RowsFit, Written;
    var fields: seq<Field> := [];
    for k := 0 to |tables|
      invariant forall j :: 0 <= j < k ==> TableOk(side, tables[j])
      invariant fields == TableFields(side, tables[..k])
    {
      if !WidthOk(side, tables[k].width) {
        return None;
      }
      var name := WriteName(side, tables[k].name);
      if name.None? {
        return None;
      }
      var next := WriteTable(side, fields, name.value, tables[k]);
      if next.None? {
        return None;
      }
      assert tables[..k + 1][..k] == tables[..k];
      fields := next.value;
    }
    assert tables[..|tables|] == tables;
    r := Some(fields);
  }

  method WriteXml(side: Side, params: seq<NamedValue>) returns (r: Option<seq<Field>>)
    ensures r.Some? <==> forall k :: 0 <= k < |params| ==> XmlOk(side, params[k])
    ensures r.Some? ==> r.value == XmlFields(params)
  {
    hide Slices, XmlOk;
    var fields: seq<Field> := [];
    for k := 0 to |params|
      invariant forall j :: 0 <= j < k ==> XmlOk(side, params[j])
      invariant fields == XmlFields(params[..k])
    {
      if !XmlOk(side, params[k]) {
        return None;
      }
      assert params[..k + 1][..k] == params[..k];
      var chunks := CutSlices(params[k].value, XML_CHUNK);
      fields := fields + ([Field(XRFC_PARAMETER, [])] + FieldsOf(XRFC_DATA, chunks) + [Field(XRFC_PARAMETER, [])]);
    }
    assert params[..|params|] == params;
    r := Some(fields);
  }

  // ---- distinct names ----

  predicate Distinct(names: seq<Name>) { forall i, j :: 0 <= i < j < |names| ==> names[i] != names[j] }

  function NamesOf(values: seq<NamedValue>): seq<Name> { seq(|values|, i requires 0 <= i < |values| => values[i].name) }
  function TableNames(tables: seq<Table>): seq<Name> { seq(|tables|, i requires 0 <= i < |tables| => tables[i].name) }

  /** One pass with the set of names seen so far. */
  method AllDistinct(names: seq<Name>) returns (r: bool)
    ensures r == Distinct(names)
  {
    var seen: set<Name> := {};
    for k := 0 to |names|
      invariant Distinct(names[..k])
      invariant forall n :: n in seen <==> n in names[..k]
    {
      assert names[..k + 1] == names[..k] + [names[k]];
      if names[k] in seen {
        var j :| 0 <= j < k && names[..k][j] == names[k];
        assert names[j] == names[k];
        return false;
      }
      seen := seen + {names[k]};
    }
    assert names[..|names|] == names;
    r := true;
  }

  // ---- the tags they use ----

  const DATA_TAGS: set<Tag> := {PARAMETER_NAME, PARAMETER_VALUE, TABLE_NAME, TABLE_HEADER, TABLE_ROW, XRFC_PARAMETER, XRFC_DATA}

  predicate TagsIn(fields: seq<Field>, tags: set<Tag>) { forall k :: 0 <= k < |fields| ==> fields[k].tag in tags }

  lemma {:induction false} NamedTags(side: Side, values: seq<NamedValue>)
    ensures TagsIn(NamedFields(side, values), DATA_TAGS)
  {
    if values != [] { NamedTags(side, values[..|values| - 1]); }
  }

  lemma {:induction false} TableTags(side: Side, tables: seq<Table>)
    ensures TagsIn(TableFields(side, tables), DATA_TAGS)
  {
    if tables != [] { TableTags(side, tables[..|tables| - 1]); }
  }

  lemma {:induction false} XmlTags(params: seq<NamedValue>)
    ensures TagsIn(XmlFields(params), DATA_TAGS)
  {
    if params != [] { XmlTags(params[..|params| - 1]); }
  }
}
