/** The client reads from a response what the server put in, exactly when it can. */
module CutResponseRoundTrip {
  import opened Bytes
  import opened CutNames
  import opened FieldChain
  import opened CutFields
  import opened ClassicResult
  import opened CutResponse
  import EE = ErrorEnvelope

  // ---- classification ----

  /** Fields with data tags weigh nothing and state no facts. */
  lemma {:induction false} DataIsNeutral(fields: seq<Field>, tag: Tag)
    requires TagsIn(fields, DATA_TAGS) && tag !in DATA_TAGS
    ensures EE.Total(EE.TextBytes, fields) == 0 && EE.Total(EE.ControlBytes, fields) == 0 && EE.Total(EE.Controls, fields) == 0
    ensures EE.Total(EE.OfTag(tag), fields) == 0 && EE.Facts(fields) == map[]
    ensures EE.FieldsOk(RESPONSE_OPTIONS, fields)
  {
    hide EE.DecodeText, EE.Weight, EE.FieldOk;
    if fields != [] {
      var n := |fields| - 1;
      assert TagsIn(fields[..n], DATA_TAGS);
      DataIsNeutral(fields[..n], tag);
      NeutralField(fields[n], tag);
      assert forall k :: 0 <= k < n ==> fields[k] == fields[..n][k];
    }
  }

  lemma NeutralField(f: Field, tag: Tag)
    requires f.tag in DATA_TAGS && tag !in DATA_TAGS
    ensures EE.Weight(EE.TextBytes, f) == 0 && EE.Weight(EE.ControlBytes, f) == 0 && EE.Weight(EE.Controls, f) == 0
    ensures EE.Weight(EE.OfTag(tag), f) == 0 && f.tag !in EE.TEXT_TAGS && EE.FieldOk(RESPONSE_OPTIONS, f)
  {
    hide EE.DecodeText;
  }

  lemma {:induction false} FactsAfter(first: Field, fields: seq<Field>)
    requires EE.Facts(fields) == map[] && TagsIn(fields, DATA_TAGS)
    ensures EE.Facts([first] + fields) == EE.Facts([first])
    decreases |fields|
  {
    hide EE.DecodeText;
    var all := [first] + fields;
    if fields == [] {
      assert all == [first];
    } else {
      var n := |fields| - 1;
      assert all[..|all| - 1] == [first] + fields[..n];
      DataIsNeutral(fields[..n], 0);
      FactsAfter(first, fields[..n]);
      assert all[|all| - 1] == fields[n];
    }
  }

  lemma TotalAfter(m: EE.Measure, first: Field, fields: seq<Field>)
    ensures EE.Total(m, [first] + fields) == EE.Weight(m, first) + EE.Total(m, fields)
  {
    EE.TotalSplit(m, [first], fields);
    EE.TotalOne(m, first);
  }

  /** The success control before data fields makes a success without facts. */
  lemma SuccessIsRecognised(fields: seq<Field>)
    requires TagsIn(fields, DATA_TAGS) && |fields| + 2 <= 100_000
    ensures EE.Verdict(RESPONSE_OPTIONS, [SUCCESS_CONTROL] + fields + [END_FIELD])
            == Some(EE.Envelope(EE.Success, EE.ZeroControl, map[]))
  {
    hide EE.Total, EE.Facts, EE.FieldOk, EE.DecodeText;
    var body := [SUCCESS_CONTROL] + fields;
    EE.EndOfBody(body);
    assert forall k :: 0 <= k < |body| ==> body[k].tag != EE.END by {
      forall k | 0 <= k < |body| ensures body[k].tag != EE.END {
        if k > 0 { assert body[k] == fields[k - 1]; }
      }
    }
    BodyIsAcceptable(fields);
    FactsOfBody(fields);
    ControlsOfBody(fields);
  }

  lemma BodyIsAcceptable(fields: seq<Field>)
    requires TagsIn(fields, DATA_TAGS)
    ensures EE.Acceptable(RESPONSE_OPTIONS, [SUCCESS_CONTROL] + fields)
  {
    hide EE.Total, EE.Facts, EE.DecodeText;
    var body := [SUCCESS_CONTROL] + fields;
    forall tag: Tag | EE.Singleton(tag) ensures EE.Total(EE.OfTag(tag), body) <= 1 {
      DataIsNeutral(fields, tag);
      TotalAfter(EE.OfTag(tag), SUCCESS_CONTROL, fields);
    }
    DataIsNeutral(fields, 0);
    TotalAfter(EE.TextBytes, SUCCESS_CONTROL, fields);
    TotalAfter(EE.ControlBytes, SUCCESS_CONTROL, fields);
    TotalAfter(EE.Controls, SUCCESS_CONTROL, fields);
    forall k | 0 <= k < |body| ensures EE.FieldOk(RESPONSE_OPTIONS, body[k]) {
      if k > 0 { assert body[k] == fields[k - 1]; }
    }
  }

  lemma FactsOfBody(fields: seq<Field>)
    requires TagsIn(fields, DATA_TAGS)
    ensures EE.Facts([SUCCESS_CONTROL] + fields) == map[]
  {
    DataIsNeutral(fields, 0);
    FactsAfter(SUCCESS_CONTROL, fields);
    assert [SUCCESS_CONTROL][..0] == [];
  }

  lemma ControlsOfBody(fields: seq<Field>)
    requires TagsIn(fields, DATA_TAGS)
    ensures var body := [SUCCESS_CONTROL] + fields;
            && EE.HasZeroControl(body)
            && EE.Total(EE.OfTag(EE.USE_CLASS_EXCEPTIONS), body) == 0 && EE.Total(EE.OfTag(EE.CLASS_EXCEPTION_INFO), body) == 0
  {
    hide EE.Total, EE.Facts, EE.FieldsOk;
    var body := [SUCCESS_CONTROL] + fields;
    DataIsNeutral(fields, EE.UNRESOLVED);
    DataIsNeutral(fields, EE.USE_CLASS_EXCEPTIONS);
    DataIsNeutral(fields, EE.CLASS_EXCEPTION_INFO);
    TotalAfter(EE.OfTag(EE.UNRESOLVED), SUCCESS_CONTROL, fields);
    TotalAfter(EE.OfTag(EE.USE_CLASS_EXCEPTIONS), SUCCESS_CONTROL, fields);
    TotalAfter(EE.OfTag(EE.CLASS_EXCEPTION_INFO), SUCCESS_CONTROL, fields);
    assert body[0] == SUCCESS_CONTROL;
  }

  lemma DataTags(a: Answer)
    ensures TagsIn(DataFields(a), DATA_TAGS)
  {
    hide NamedFields, TableFields, XmlFields;
    NamedTags(Server, a.exports);
    TableTags(Server, a.tables);
    XmlTags(a.xml);
  }

  /** Every encoded answer is received as a success, with the very fields that were sent. */
  lemma AnswerIsReceived(a: Answer)
    requires Accepted(a)
    ensures AllEncodable(ResponseFields(a))
    ensures Received(Framed(ResponseFields(a)))
            == Some(Reply(EE.Envelope(EE.Success, EE.ZeroControl, map[]), ResponseFields(a)))
  {
    hide DataFields, Received, EE.Verdict, Framed, TableOk, ChainLength;
    DataTags(a);
    var body := BodyFields(a);
    assert NoTag(body, Some(CutFields.END)) by {
      forall k | 0 <= k < |body| ensures body[k].tag != CutFields.END {
        if k > 0 { assert body[k] == DataFields(a)[k - 1]; }
      }
    }
    FramedIsReceived(body);
    SuccessIsRecognised(DataFields(a));
  }

  // ---- scalars ----

  /** What the walk makes of these exports. */
  function ReadNamed(w: Walk, values: seq<NamedValue>): Option<Walk> {
    if values == [] then Some(w)
    else
      var v := values[|values| - 1];
      var before := ReadNamed(w, values[..|values| - 1]);
      var name := ParameterName(Written(Server, v.name));
      if before.None? || name.None? || name.value in before.value.names then None
      else
        var r := before.value.result;
        Some(Walk(r.(scalars := r.scalars + [NamedValue(name.value, v.value)]), before.value.names + {name.value}))
  }

  function Continue(rest: seq<Field>, w: Option<Walk>): Option<Result> { if w.None? then None else Read(rest, w.value) }

  lemma OneRead(v: NamedValue, rest: seq<Field>, w: Walk)
    ensures Read(ValueFields(Server, v) + rest, w) == Continue(rest, ReadNamed(w, [v]))
  {
    hide ParameterName, Written;
    var fields := ValueFields(Server, v) + rest;
    assert fields[0] == Field(PARAMETER_NAME, Written(Server, v.name)) && fields[1] == Field(PARAMETER_VALUE, v.value) && fields[2..] == rest;
    assert [v][..0] == [];
    assert ReadNamed(w, []) == Some(w);
  }

  lemma ReadNamedSnoc(w: Walk, front: seq<NamedValue>, v: NamedValue)
    ensures ReadNamed(w, front + [v]) == match ReadNamed(w, front) { case None => None case Some(h) => ReadNamed(h, [v]) }
  {
    hide ParameterName, Written;
    assert (front + [v])[..|front|] == front;
    assert [v][..0] == [];
    if ReadNamed(w, front).Some? { assert ReadNamed(ReadNamed(w, front).value, []) == Some(ReadNamed(w, front).value); }
  }

  lemma {:induction false} NamedRead(values: seq<NamedValue>, rest: seq<Field>, w: Walk)
    ensures Read(NamedFields(Server, values) + rest, w) == Continue(rest, ReadNamed(w, values))
    decreases |values|
  {
    hide Read, ValueFields;
    if values == [] {
      assert NamedFields(Server, values) + rest == rest;
    } else {
      var n := |values| - 1;
      var front, v := values[..n], values[n];
      assert values == front + [v];
      assert NamedFields(Server, values) + rest == NamedFields(Server, front) + (ValueFields(Server, v) + rest);
      NamedRead(front, ValueFields(Server, v) + rest, w);
      ReadNamedSnoc(w, front, v);
      hide ReadNamed;
      if ReadNamed(w, front).Some? { OneRead(v, rest, ReadNamed(w, front).value); }
    }
  }

  predicate Fresh(names: seq<Name>, taken: set<Name>) {
    Distinct(names) && forall k :: 0 <= k < |names| ==> names[k] !in taken
  }

  predicate AllLegible(names: seq<Name>) { forall k :: 0 <= k < |names| ==> Legible(names[k]) }

  function NameSet(names: seq<Name>): set<Name> { set n | n in names }

  lemma SnocNames(front: seq<Name>, name: Name, taken: set<Name>)
    ensures AllLegible(front + [name]) <==> AllLegible(front) && Legible(name)
    ensures Fresh(front + [name], taken) <==> Fresh(front, taken) && name !in taken + NameSet(front)
    ensures NameSet(front + [name]) == NameSet(front) + {name}
  {
    var all := front + [name];
    assert all[|front|] == name && forall k :: 0 <= k < |front| ==> all[k] == front[k];
    if Fresh(all, taken) {
      forall i, j | 0 <= i < j < |front| ensures front[i] != front[j] { assert all[i] != all[j]; }
    }
  }

  function Last<T>(s: seq<T>): T
    requires s != []
  {
    s[|s| - 1]
  }

  function Front<T>(s: seq<T>): seq<T>
    requires s != []
  {
    s[..|s| - 1]
  }

  lemma FrontNames(values: seq<NamedValue>, taken: set<Name>)
    requires values != []
    ensures var names, front := NamesOf(values), NamesOf(Front(values));
            && (AllLegible(names) <==> AllLegible(front) && Legible(Last(values).name))
            && (Fresh(names, taken) <==> Fresh(front, taken) && Last(values).name !in taken + NameSet(front))
            && NameSet(names) == NameSet(front) + {Last(values).name}
  {
    hide Legible, Fresh, AllLegible, NameSet;
    SnocNames(NamesOf(Front(values)), Last(values).name, taken);
    assert NamesOf(values) == NamesOf(Front(values)) + [Last(values).name];
  }

  lemma {:induction false} NamedForward(w: Walk, values: seq<NamedValue>)
    requires AllLegible(NamesOf(values)) && Fresh(NamesOf(values), w.names)
    ensures ReadNamed(w, values) == Some(Walk(w.result.(scalars := w.result.scalars + values), w.names + NameSet(NamesOf(values))))
    decreases |values|
  {
    hide Legible, Written, ParameterName, NamesOf, Fresh, AllLegible;
    if values == [] {
      NoNames(values);
      assert w.result.scalars + values == w.result.scalars && w.names + {} == w.names;
    } else {
      var v := Last(values);
      FrontNames(values, w.names);
      NamedForward(w, Front(values));
      LegibleIff(v.name);
      assert w.result.scalars + Front(values) + [v] == w.result.scalars + values;
      assert w.names + NameSet(NamesOf(Front(values))) + {v.name} == w.names + NameSet(NamesOf(values));
    }
  }

  lemma NoNames(values: seq<NamedValue>)
    requires values == []
    ensures NameSet(NamesOf(values)) == {} && AllLegible(NamesOf(values)) && forall taken: set<Name> :: Fresh(NamesOf(values), taken)
  {
  }

  /** Reading exports leaves the rest of the result alone and adds one scalar each. */
  lemma {:induction false} NamedKeeps(w: Walk, values: seq<NamedValue>)
    ensures var read := ReadNamed(w, values);
            read.Some? ==> && read.value.result == w.result.(scalars := read.value.result.scalars)
                           && |read.value.result.scalars| == |w.result.scalars| + |values|
    decreases |values|
  {
    hide Written, ParameterName;
    if values != [] { NamedKeeps(w, Front(values)); }
  }

  lemma {:induction false} NamedBackward(w: Walk, values: seq<NamedValue>)
    requires ReadNamed(w, values).Some? && ReadNamed(w, values).value.result.scalars == w.result.scalars + values
    ensures AllLegible(NamesOf(values)) && Fresh(NamesOf(values), w.names)
    ensures ReadNamed(w, values).value.names == w.names + NameSet(NamesOf(values))
    decreases |values|
  {
    hide Legible, Written, ParameterName, NamesOf, Fresh, AllLegible;
    if values == [] {
      NoNames(values);
      assert w.names + {} == w.names;
    } else {
      var v, before := Last(values), ReadNamed(w, Front(values)).value;
      var name := ParameterName(Written(Server, v.name)).value;
      NamedKeeps(w, Front(values));
      SameSnoc(before.result.scalars, NamedValue(name, v.value), w.result.scalars, values);
      NamedBackward(w, Front(values));
      LegibleIff(v.name);
      FrontNames(values, w.names);
      assert w.names + NameSet(NamesOf(Front(values))) + {v.name} == w.names + NameSet(NamesOf(values));
    }
  }

  lemma SameSnoc<T>(a: seq<T>, x: T, b: seq<T>, values: seq<T>)
    requires values != [] && a + [x] == b + values && |a| == |b| + |values| - 1
    ensures a == b + Front(values) && x == Last(values)
  {
    assert (a + [x])[..|a|] == a && (b + values)[..|a|] == b + Front(values);
    assert (a + [x])[|a|] == x && (b + values)[|a|] == Last(values);
  }

  // ---- tables ----

  function WireWidth(t: Table): nat { t.width % 0x1_0000_0000 }

  /** What the decoder makes of a table's header and rows. */
  function ReadOne(t: Table, name: Name): Option<ResultTable> {
    var rows := DecodeRows(WireWidth(t), FieldsOf(TABLE_ROW, t.rows));
    if rows.None? then None
    else Some(ResultTable(name, WireWidth(t), if rows.value == [] then WireWidth(t) else |rows.value[0]|,
                          if t.rows == [] then Empty else Structured, rows.value))
  }

  lemma HeaderRead(t: Table)
    requires |t.rows| < 0x1_0000_0000
    ensures DecodeTableHeader(TableHeader(t)) == Some(TableHead(WireWidth(t), |t.rows|))
  {
    hide BigEndian, U32;
    var h := TableHeader(t);
    assert h[..4] == U32(WireWidth(t)) && h[4..] == U32(|t.rows|);
    BigEndianOfU32(WireWidth(t));
    BigEndianOfU32(|t.rows|);
  }

  lemma TableIsRead(t: Table, rest: seq<Field>, name: Name)
    requires |t.rows| < 0x1_0000_0000
    ensures |OneTable(Server, t) + rest| >= 2
    ensures ReadTable(OneTable(Server, t) + rest, name) ==
            match ReadOne(t, name) { case None => None case Some(x) => Some((x, 2 + |t.rows|)) }
    ensures (OneTable(Server, t) + rest)[2 + |t.rows|..] == rest
  {
    hide DecodeTableHeader, TableHeader, Written, RowRun, DecodeRows;
    var fields, rows := OneTable(Server, t) + rest, FieldsOf(TABLE_ROW, t.rows);
    HeaderRead(t);
    assert fields[1].value == TableHeader(t);
    var after := fields[2..];
    assert after == rows + rest;
    assert forall j :: 0 <= j < |rows| ==> after[j] == rows[j];
    RunGoesOn(after, |t.rows|, |t.rows|);
    assert fields[2..2 + |t.rows|] == rows;
    OnlyCompressed(t.rows);
    RowsDecoded(WireWidth(t), rows);
  }

  lemma OnlyCompressed(rows: seq<seq<byte>>)
    ensures EncodingOf(FieldsOf(TABLE_ROW, rows)) == if rows == [] then Empty else Structured
  {
    var fields := FieldsOf(TABLE_ROW, rows);
    if rows != [] { assert fields[0].tag == TABLE_ROW; }
  }

  lemma {:induction false} RowsDecoded(width: nat, fields: seq<Field>)
    ensures DecodeRows(width, fields).Some? ==> |DecodeRows(width, fields).value| == |fields|
  {
    if fields != [] { RowsDecoded(width, Front(fields)); }
  }

  function ReadTables(w: Walk, tables: seq<Table>): Option<Walk> {
    if tables == [] then Some(w)
    else
      var t := tables[|tables| - 1];
      var before := ReadTables(w, tables[..|tables| - 1]);
      var name := ParameterName(Written(Server, t.name));
      if before.None? || name.None? || name.value in before.value.names || ReadOne(t, name.value).None? then None
      else
        var r := before.value.result;
        Some(Walk(r.(tables := r.tables + [ReadOne(t, name.value).value]), before.value.names + {name.value}))
  }

  lemma OneTableRead(t: Table, rest: seq<Field>, w: Walk)
    requires |t.rows| < 0x1_0000_0000
    ensures Read(OneTable(Server, t) + rest, w) == Continue(rest, ReadTables(w, [t]))
  {
    hide ParameterName, Written, ReadTable, ReadOne, TableHeader;
    var fields := OneTable(Server, t) + rest;
    assert fields[0] == Field(TABLE_NAME, Written(Server, t.name)) && fields[1] == Field(TABLE_HEADER, TableHeader(t));
    assert [t][..0] == [];
    assert ReadTables(w, []) == Some(w);
    if ParameterName(Written(Server, t.name)).Some? { TableIsRead(t, rest, ParameterName(Written(Server, t.name)).value); }
  }

  lemma ReadTablesSnoc(w: Walk, front: seq<Table>, t: Table)
    ensures ReadTables(w, front + [t]) == match ReadTables(w, front) { case None => None case Some(h) => ReadTables(h, [t]) }
  {
    hide ParameterName, Written, ReadOne;
    assert (front + [t])[..|front|] == front;
    assert [t][..0] == [];
    if ReadTables(w, front).Some? { assert ReadTables(ReadTables(w, front).value, []) == Some(ReadTables(w, front).value); }
  }

  predicate FewRows(tables: seq<Table>) { forall k :: 0 <= k < |tables| ==> |tables[k].rows| < 0x1_0000_0000 }

  lemma {:induction false} TablesRead(tables: seq<Table>, rest: seq<Field>, w: Walk)
    requires FewRows(tables)
    ensures Read(TableFields(Server, tables) + rest, w) == Continue(rest, ReadTables(w, tables))
    decreases |tables|
  {
    hide Read, OneTable;
    if tables == [] {
      assert TableFields(Server, tables) + rest == rest;
    } else {
      var front, t := Front(tables), Last(tables);
      assert tables == front + [t];
      assert TableFields(Server, tables) + rest == TableFields(Server, front) + (OneTable(Server, t) + rest);
      TablesRead(front, OneTable(Server, t) + rest, w);
      ReadTablesSnoc(w, front, t);
      hide ReadTables;
      if ReadTables(w, front).Some? { OneTableRead(t, rest, ReadTables(w, front).value); }
    }
  }

  function ExpectedTable(t: Table): ResultTable {
    ResultTable(t.name, t.width, t.width, if t.rows == [] then Empty else Structured, t.rows)
  }

  function ExpectedTables(tables: seq<Table>): seq<ResultTable> {
    seq(|tables|, i requires 0 <= i < |tables| => ExpectedTable(tables[i]))
  }

  /** The width fits its field, and rows have some. */
  predicate Sized(t: Table) { 0 <= t.width < 0x1_0000_0000 && (t.rows != [] ==> t.width > 0) }

  predicate RowsMatch(t: Table) { forall k :: 0 <= k < |t.rows| ==> t.width == 0 || |t.rows[k]| == t.width }

  lemma {:induction false} FullRows(width: nat, rows: seq<seq<byte>>)
    requires width > 0 && forall k :: 0 <= k < |rows| ==> |rows[k]| == width
    ensures DecodeRows(width, FieldsOf(TABLE_ROW, rows)) == Some(rows)
    decreases |rows|
  {
    var fields := FieldsOf(TABLE_ROW, rows);
    if rows == [] {
      assert fields == [];
    } else {
      FullRows(width, Front(rows));
      assert Front(fields) == FieldsOf(TABLE_ROW, Front(rows));
      assert Front(rows) + [Last(rows)] == rows;
    }
  }

  lemma NoRowsDecode(width: nat)
    ensures DecodeRows(width, FieldsOf(TABLE_ROW, [])) == Some([])
  {
  }

  /** A table comes back as itself exactly when it is sized. */
  lemma TableIff(t: Table)
    requires RowsMatch(t)
    ensures ReadOne(t, t.name) == Some(ExpectedTable(t)) <==> Sized(t)
  {
    hide DecodeRows;
    if Sized(t) {
      if t.rows == [] { NoRowsDecode(WireWidth(t)); } else { FullRows(t.width, t.rows); }
    } else if t.rows != [] && 0 <= t.width < 0x1_0000_0000 {
      NoWidth(t.rows);
    }
  }

  lemma NoWidth(rows: seq<seq<byte>>)
    requires rows != []
    ensures DecodeRows(0, FieldsOf(TABLE_ROW, rows)) == None
  {
    var fields := FieldsOf(TABLE_ROW, rows);
    assert fields[|fields| - 1] == Field(TABLE_ROW, Last(rows));
  }

  lemma {:induction false} TablesKeep(w: Walk, tables: seq<Table>)
    ensures var read := ReadTables(w, tables);
            read.Some? ==> && read.value.result == w.result.(tables := read.value.result.tables)
                           && |read.value.result.tables| == |w.result.tables| + |tables|
    decreases |tables|
  {
    hide Written, ParameterName, ReadOne;
    if tables != [] { TablesKeep(w, Front(tables)); }
  }

  predicate AllMatch(tables: seq<Table>) { forall k :: 0 <= k < |tables| ==> RowsMatch(tables[k]) }
  predicate AllSized(tables: seq<Table>) { forall k :: 0 <= k < |tables| ==> Sized(tables[k]) }

  lemma FrontTables(tables: seq<Table>, taken: set<Name>)
    requires tables != []
    ensures var names, front := TableNames(tables), TableNames(Front(tables));
            && (AllLegible(names) <==> AllLegible(front) && Legible(Last(tables).name))
            && (Fresh(names, taken) <==> Fresh(front, taken) && Last(tables).name !in taken + NameSet(front))
            && NameSet(names) == NameSet(front) + {Last(tables).name}
    ensures AllSized(tables) <==> AllSized(Front(tables)) && Sized(Last(tables))
    ensures AllMatch(tables) <==> AllMatch(Front(tables)) && RowsMatch(Last(tables))
    ensures ExpectedTables(tables) == ExpectedTables(Front(tables)) + [ExpectedTable(Last(tables))]
  {
    hide Legible, Fresh, AllLegible, NameSet, Sized, RowsMatch;
    var n := |tables| - 1;
    SnocNames(TableNames(Front(tables)), Last(tables).name, taken);
    assert TableNames(tables) == TableNames(Front(tables)) + [Last(tables).name];
    assert forall k :: 0 <= k < n ==> Front(tables)[k] == tables[k];
  }

  lemma NoTableNames(tables: seq<Table>)
    requires tables == []
    ensures NameSet(TableNames(tables)) == {} && AllLegible(TableNames(tables)) && ExpectedTables(tables) == [] && AllSized(tables)
    ensures forall taken: set<Name> :: Fresh(TableNames(tables), taken)
  {
  }

  lemma {:induction false} TablesForward(w: Walk, tables: seq<Table>)
    requires AllMatch(tables) && AllSized(tables) && AllLegible(TableNames(tables)) && Fresh(TableNames(tables), w.names)
    ensures ReadTables(w, tables)
            == Some(Walk(w.result.(tables := w.result.tables + ExpectedTables(tables)), w.names + NameSet(TableNames(tables))))
    decreases |tables|
  {
    hide Legible, Written, ParameterName, TableNames, Fresh, AllLegible, AllMatch, AllSized, ReadOne, Sized, RowsMatch, ExpectedTables, ExpectedTable;
    if tables == [] {
      NoTableNames(tables);
      assert w.result.tables + [] == w.result.tables && w.names + {} == w.names;
    } else {
      var t := Last(tables);
      FrontTables(tables, w.names);
      TablesForward(w, Front(tables));
      LegibleIff(t.name);
      TableIff(t);
      assert w.result.tables + ExpectedTables(Front(tables)) + [ExpectedTable(t)] == w.result.tables + ExpectedTables(tables);
      assert w.names + NameSet(TableNames(Front(tables))) + {t.name} == w.names + NameSet(TableNames(tables));
    }
  }

  lemma {:induction false} TablesBackward(w: Walk, tables: seq<Table>)
    requires AllMatch(tables) && ReadTables(w, tables).Some?
    requires ReadTables(w, tables).value.result.tables == w.result.tables + ExpectedTables(tables)
    ensures AllSized(tables) && AllLegible(TableNames(tables)) && Fresh(TableNames(tables), w.names)
    ensures ReadTables(w, tables).value.names == w.names + NameSet(TableNames(tables))
    decreases |tables|
  {
    hide Legible, Written, ParameterName, TableNames, Fresh, AllLegible, AllMatch, AllSized, ReadOne, Sized, RowsMatch, ExpectedTables, ExpectedTable;
    if tables == [] {
      NoTableNames(tables);
      assert w.names + {} == w.names;
    } else {
      var t, before := Last(tables), ReadTables(w, Front(tables)).value;
      var name := ParameterName(Written(Server, t.name)).value;
      FrontTables(tables, w.names);
      ExpectedCount(tables);
      TablesKeep(w, Front(tables));
      SameSnoc(before.result.tables, ReadOne(t, name).value, w.result.tables, ExpectedTables(tables));
      assert Front(ExpectedTables(tables)) == ExpectedTables(Front(tables)) && Last(ExpectedTables(tables)) == ExpectedTable(t);
      TablesBackward(w, Front(tables));
      NameOfOne(t, name);
      LegibleIff(t.name);
      TableIff(t);
      assert w.names + NameSet(TableNames(Front(tables))) + {t.name} == w.names + NameSet(TableNames(tables));
    }
  }

  lemma ExpectedCount(tables: seq<Table>)
    ensures |ExpectedTables(tables)| == |tables|
  {
  }

  lemma NameOfOne(t: Table, name: Name)
    ensures ReadOne(t, name).Some? ==> ReadOne(t, name).value.name == name
    ensures ExpectedTable(t).name == t.name
  {
  }

  // ---- XML values ----

  function ExpectedXml(v: NamedValue): XmlValue { XmlValue(v.value, |Slices(v.value, XML_CHUNK)|) }

  function ExpectedXmls(params: seq<NamedValue>): seq<XmlValue> {
    seq(|params|, i requires 0 <= i < |params| => ExpectedXml(params[i]))
  }

  predicate XmlFits(v: NamedValue) { 0 < |v.value| <= MAX_BYTES }

  lemma XmlIsRead(v: NamedValue, rest: seq<Field>)
    requires XmlFits(v)
    ensures var fields, n := OneXml(v.value) + rest, |Slices(v.value, XML_CHUNK)|;
            |fields| >= 1 && fields[0] == Field(XRFC_PARAMETER, []) && n + 2 <= |fields| && fields[n + 2..] == rest
            && ReadXml(fields) == Some((ExpectedXml(v), n + 2))
  {
    hide Slices, Flatten, DataRun;
    var chunks := Slices(v.value, XML_CHUNK);
    var fields, data := OneXml(v.value) + rest, FieldsOf(XRFC_DATA, chunks);
    SlicesJoin(v.value, XML_CHUNK);
    var after := fields[1..];
    assert after == data + ([Field(XRFC_PARAMETER, [])] + rest);
    assert forall j :: 0 <= j < |data| ==> after[j] == data[j];
    assert after[|data|] == Field(XRFC_PARAMETER, []);
    DataGoesOn(after, |chunks|);
    assert fields[1..1 + |chunks|] == data;
    assert ValuesOf(data) == chunks;
    SomeSlices(v.value);
  }

  lemma OneXmlRead(v: NamedValue, rest: seq<Field>, w: Walk)
    requires XmlFits(v)
    ensures Read(OneXml(v.value) + rest, w) == Read(rest, w.(result := w.result.(xml := w.result.xml + [ExpectedXml(v)])))
  {
    hide OneXml, ReadXml, Slices;
    XmlIsRead(v, rest);
  }

  lemma SomeSlices(value: seq<byte>)
    requires value != []
    ensures |Slices(value, XML_CHUNK)| > 0
  {
  }

  lemma {:induction false} XmlsRead(params: seq<NamedValue>, rest: seq<Field>, w: Walk)
    requires forall k :: 0 <= k < |params| ==> XmlFits(params[k])
    ensures Read(XmlFields(params) + rest, w) == Read(rest, w.(result := w.result.(xml := w.result.xml + ExpectedXmls(params))))
    decreases |params|
  {
    hide Read, OneXml, XmlFits, ExpectedXml;
    if params == [] {
      assert XmlFields(params) + rest == rest;
      assert w.result.xml + ExpectedXmls(params) == w.result.xml;
    } else {
      var front, v := Front(params), Last(params);
      assert XmlFields(params) + rest == XmlFields(front) + (OneXml(v.value) + rest);
      XmlsRead(front, OneXml(v.value) + rest, w);
      OneXmlRead(v, rest, w.(result := w.result.(xml := w.result.xml + ExpectedXmls(front))));
      assert ExpectedXmls(params) == ExpectedXmls(front) + [ExpectedXml(v)];
      assert w.result.xml + ExpectedXmls(front) + [ExpectedXml(v)] == w.result.xml + ExpectedXmls(params);
    }
  }

  // ---- the size checks ----

  lemma {:induction false} ValuesWithinChain(fields: seq<Field>)
    ensures ValueBytes(fields) <= ChainLength(fields)
    ensures forall k :: 0 <= k < |fields| ==> |fields[k].value| <= ValueBytes(fields)
  {
    if fields != [] {
      var n := |fields| - 1;
      ValuesWithinChain(fields[..n]);
      assert fields == fields[..n] + [fields[n]];
      ChainLengthSplit(fields[..n], [fields[n]]);
      OneRecord0(fields[n]);
      assert forall k :: 0 <= k < n ==> fields[k] == fields[..n][k];
    }
  }

  lemma OneRecord0(f: Field)
    ensures ChainLength([f]) == RecordLength(f)
  {
    assert [f][1..] == [];
  }

  lemma {:induction false} SkipFields(fields: seq<Field>, rest: seq<Field>, total: nat)
    requires forall k :: 0 <= k < |fields| ==> fields[k].tag != TABLE_NAME
    ensures TablesBytes(fields + rest, total) == TablesBytes(rest, total)
    decreases |fields|
  {
    if fields == [] {
      assert fields + rest == rest;
    } else {
      assert (fields + rest)[1..] == fields[1..] + rest;
      assert (fields + rest)[0] == fields[0];
      SkipFields(fields[1..], rest, total);
    }
  }

  lemma {:induction false} FullRowsBytes(width: nat, rows: seq<seq<byte>>)
    requires width > 0 && forall k :: 0 <= k < |rows| ==> |rows[k]| == width
    ensures var fields := FieldsOf(TABLE_ROW, rows);
            RowsOk(width, fields) && RowsBytes(width, fields) == ValueBytes(fields)
    decreases |rows|
  {
    var fields := FieldsOf(TABLE_ROW, rows);
    if rows != [] {
      FullRowsBytes(width, Front(rows));
      assert Front(fields) == FieldsOf(TABLE_ROW, Front(rows));
    }
  }

  lemma SizedRowsBytes(t: Table)
    requires RowsMatch(t) && Sized(t)
    ensures var fields := FieldsOf(TABLE_ROW, t.rows);
            RowsOk(WireWidth(t), fields) && RowsBytes(WireWidth(t), fields) == ValueBytes(fields)
  {
    if t.rows == [] {
      assert FieldsOf(TABLE_ROW, t.rows) == [];
    } else {
      FullRowsBytes(t.width, t.rows);
    }
  }

  lemma OneTableBytes(t: Table, rest: seq<Field>, total: nat) returns (more: nat)
    requires RowsMatch(t) && Sized(t) && Legible(t.name) && |t.rows| < 0x1_0000_0000
    requires total + ValueBytes(OneTable(Server, t)) <= MAX_BYTES
    ensures more <= ValueBytes(OneTable(Server, t)) && TablesBytes(OneTable(Server, t) + rest, total) == TablesBytes(rest, total + more)
  {
    hide ParameterName, Written, TableHeader, DecodeTableHeader, RowRun, RowsOk, RowsBytes, ValueBytes, Legible;
    var fields, rows := OneTable(Server, t) + rest, FieldsOf(TABLE_ROW, t.rows);
    var head := [Field(TABLE_NAME, Written(Server, t.name)), Field(TABLE_HEADER, TableHeader(t))];
    LegibleIff(t.name);
    HeaderRead(t);
    ValueBytesSplit(head, rows);
    SizedRowsBytes(t);
    assert fields[0] == head[0] && fields[1] == head[1];
    var after := fields[2..];
    assert after == rows + rest;
    assert forall j :: 0 <= j < |rows| ==> after[j] == rows[j];
    RunGoesOn(after, |t.rows|, |t.rows|);
    assert fields[2..2 + |t.rows|] == rows && fields[2 + |t.rows|..] == rest;
    more := ValueBytes(rows);
  }

  lemma {:induction false} AllTablesBytes(tables: seq<Table>, rest: seq<Field>, total: nat) returns (more: nat)
    requires AllMatch(tables) && AllSized(tables) && AllLegible(TableNames(tables)) && FewRows(tables)
    requires total + ValueBytes(TableFields(Server, tables)) <= MAX_BYTES
    ensures more <= ValueBytes(TableFields(Server, tables)) && TablesBytes(TableFields(Server, tables) + rest, total) == TablesBytes(rest, total + more)
    decreases |tables|
  {
    hide TablesBytes, OneTable, Legible, Sized, RowsMatch, AllLegible, TableNames, AllMatch, AllSized;
    if tables == [] {
      assert TableFields(Server, tables) + rest == rest;
      more := 0;
    } else {
      var front, t := Front(tables), Last(tables);
      FrontTables(tables, {});
      ValueBytesSplit(TableFields(Server, front), OneTable(Server, t));
      assert TableFields(Server, tables) + rest == TableFields(Server, front) + (OneTable(Server, t) + rest);
      var a := AllTablesBytes(front, OneTable(Server, t) + rest, total);
      var b := OneTableBytes(t, rest, total + a);
      more := a + b;
    }
  }

  // ---- the whole response ----

  /** What the client should get. */
  function Expected(a: Answer): Result { Result([], a.exports, ExpectedTables(a.tables), ExpectedXmls(a.xml)) }

  /** Legible and distinct parameter names, and tables whose rows have the declared width and are not empty. */
  predicate Returnable(a: Answer) {
    && AllLegible(NamesOf(a.exports) + TableNames(a.tables))
    && Distinct(NamesOf(a.exports) + TableNames(a.tables))
    && AllSized(a.tables)
  }

  function Start(): Walk { Walk(Result([], [], [], []), {}) }

  lemma ReturnableParts(a: Answer)
    ensures Returnable(a) <==>
            && AllLegible(NamesOf(a.exports)) && Fresh(NamesOf(a.exports), {})
            && AllLegible(TableNames(a.tables)) && Fresh(TableNames(a.tables), NameSet(NamesOf(a.exports)))
            && AllSized(a.tables)
  {
    hide Legible, Sized;
    JoinedNames(NamesOf(a.exports), TableNames(a.tables));
  }

  lemma JoinedNames(a: seq<Name>, b: seq<Name>)
    ensures AllLegible(a + b) <==> AllLegible(a) && AllLegible(b)
    ensures Distinct(a + b) <==> Fresh(a, {}) && Fresh(b, NameSet(a))
  {
    hide Legible;
    var all := a + b;
    assert forall k :: 0 <= k < |a| ==> all[k] == a[k];
    assert forall k :: 0 <= k < |b| ==> all[|a| + k] == b[k];
    if AllLegible(all) {
      forall k | 0 <= k < |b| ensures Legible(b[k]) { assert Legible(all[|a| + k]); }
    }
    if Distinct(all) {
      forall i, j | 0 <= i < j < |b| ensures b[i] != b[j] { assert all[|a| + i] != all[|a| + j]; }
      forall k | 0 <= k < |b| ensures b[k] !in NameSet(a) { assert all[|a| + k] == b[k]; }
    }
  }

  lemma AnswerFacts(a: Answer)
    requires Accepted(a)
    ensures AllMatch(a.tables) && FewRows(a.tables) && (forall k :: 0 <= k < |a.xml| ==> XmlFits(a.xml[k]))
    ensures SizesOk(ResponseFields(a)) && ValueBytes(TableFields(Server, a.tables)) <= MAX_BYTES
  {
    hide ChainLength, TableFields, NamedFields, XmlFields, NameOk, ValueBytes;
    var fields := ResponseFields(a);
    ValuesWithinChain(fields);
    forall k | 0 <= k < |a.tables| ensures RowsMatch(a.tables[k]) {
      assert TableOk(Server, a.tables[k]);
    }
    ValueBytesSplit([SUCCESS_CONTROL] + DataFields(a), [END_FIELD]);
    ValueBytesSplit([SUCCESS_CONTROL], DataFields(a));
    ValueBytesSplit(NamedFields(Server, a.exports) + TableFields(Server, a.tables), XmlFields(a.xml));
    ValueBytesSplit(NamedFields(Server, a.exports), TableFields(Server, a.tables));
    RowsAreFields(a.tables);
    forall k | 0 <= k < |a.xml| ensures XmlFits(a.xml[k]) {
      XmlIsCarried(a.xml, k);
    }
  }

  /** A table has no more rows than there are fields. */
  lemma {:induction false} RowsAreFields(tables: seq<Table>)
    ensures forall k :: 0 <= k < |tables| ==> |tables[k].rows| <= |TableFields(Server, tables)|
    decreases |tables|
  {
    if tables != [] {
      RowsAreFields(Front(tables));
      assert forall k :: 0 <= k < |tables| - 1 ==> Front(tables)[k] == tables[k];
    }
  }

  lemma {:induction false} XmlIsCarried(params: seq<NamedValue>, k: nat)
    requires k < |params|
    ensures |params[k].value| <= ValueBytes(XmlFields(params))
    decreases |params|
  {
    hide OneXml, ValueBytes;
    ValueBytesSplit(XmlFields(Front(params)), OneXml(Last(params).value));
    if k < |params| - 1 {
      XmlIsCarried(Front(params), k);
    } else {
      ChunkBytes(params[k].value);
    }
  }

  lemma ChunkBytes(value: seq<byte>)
    ensures ValueBytes(OneXml(value)) >= |value|
  {
    hide Slices, Flatten;
    var chunks := Slices(value, XML_CHUNK);
    var data := FieldsOf(XRFC_DATA, chunks);
    ValueBytesSplit([Field(XRFC_PARAMETER, [])] + data, [Field(XRFC_PARAMETER, [])]);
    ValueBytesSplit([Field(XRFC_PARAMETER, [])], data);
    SlicesJoin(value, XML_CHUNK);
    FlattenBytes(chunks);
  }

  lemma {:induction false} FlattenBytes(chunks: seq<seq<byte>>)
    ensures ValueBytes(FieldsOf(XRFC_DATA, chunks)) == |Flatten(chunks)|
    decreases |chunks|
  {
    if chunks != [] {
      FlattenBytes(Front(chunks));
      assert chunks == Front(chunks) + [Last(chunks)];
      FlattenSplit(Front(chunks), [Last(chunks)]);
      FlattenOne(Last(chunks));
      assert Front(FieldsOf(XRFC_DATA, chunks)) == FieldsOf(XRFC_DATA, Front(chunks));
    }
  }

  /** The walk over a whole response, segment by segment. */
  lemma ResponseRead(a: Answer)
    requires Accepted(a)
    ensures var named := ReadNamed(Start(), a.exports);
            var tabled := if named.None? then None else ReadTables(named.value, a.tables);
            Read(ResponseFields(a), Start()) ==
            if tabled.None? then None else Some(tabled.value.result.(xml := tabled.value.result.xml + ExpectedXmls(a.xml)))
  {
    hide Read, ReadNamed, ReadTables, NamedFields, TableFields, XmlFields, Accepted, XmlFits, FewRows, ValueBytes, SizesOk, AllMatch;
    AnswerFacts(a);
    var end := [END_FIELD];
    var n, t, x := NamedFields(Server, a.exports), TableFields(Server, a.tables), XmlFields(a.xml);
    assert ResponseFields(a) == [SUCCESS_CONTROL] + (n + (t + (x + end)));
    SkipOne(SUCCESS_CONTROL, n + (t + (x + end)), Start());
    NamedRead(a.exports, t + (x + end), Start());
    if ReadNamed(Start(), a.exports).Some? {
      var w := ReadNamed(Start(), a.exports).value;
      TablesRead(a.tables, x + end, w);
      if ReadTables(w, a.tables).Some? {
        var v := ReadTables(w, a.tables).value;
        XmlsRead(a.xml, end, v);
        AtTheEnd(v.(result := v.result.(xml := v.result.xml + ExpectedXmls(a.xml))));
      }
    }
  }

  lemma SkipOne(f: Field, rest: seq<Field>, w: Walk)
    requires f.tag in SKIPPED
    ensures Read([f] + rest, w) == Read(rest, w)
  {
    assert ([f] + rest)[1..] == rest;
  }

  lemma AtTheEnd(w: Walk)
    ensures Read([END_FIELD], w) == Some(w.result)
  {
    assert [END_FIELD] == [END_FIELD] + [];
    SkipOne(END_FIELD, [], w);
    assert Read([], w) == Some(w.result);
  }

  lemma TablesPreflighted(a: Answer)
    requires Accepted(a) && Returnable(a)
    ensures TablesBytes(ResponseFields(a), 0).Some?
  {
    hide TablesBytes, NamedFields, TableFields, XmlFields, XmlFits, FewRows, ValueBytes, SizesOk, AllMatch, AllSized, AllLegible, Fresh, Legible, Accepted;
    AnswerFacts(a);
    ReturnableParts(a);
    var n, t, x := [SUCCESS_CONTROL] + NamedFields(Server, a.exports), TableFields(Server, a.tables), XmlFields(a.xml) + [END_FIELD];
    assert ResponseFields(a) == n + (t + (x + []));
    NamedNotTables(a.exports);
    XmlNotTables(a.xml);
    SkipFields(n, t + (x + []), 0);
    var more := AllTablesBytes(a.tables, x + [], 0);
    SkipFields(x, [], 0 + more);
    NothingToCount(more);
  }

  lemma NothingToCount(total: nat)
    ensures TablesBytes([], total) == Some(total)
  {
  }

  lemma {:induction false} NamedNotTables(values: seq<NamedValue>)
    ensures forall k :: 0 <= k < |NamedFields(Server, values)| ==> NamedFields(Server, values)[k].tag != TABLE_NAME
  {
    if values != [] { NamedNotTables(Front(values)); }
  }

  lemma {:induction false} XmlNotTables(params: seq<NamedValue>)
    ensures forall k :: 0 <= k < |XmlFields(params)| ==> XmlFields(params)[k].tag != TABLE_NAME
  {
    if params != [] { XmlNotTables(Front(params)); }
  }

  lemma ReturnableIsReturned(a: Answer)
    requires Accepted(a) && Returnable(a)
    ensures GroupResult(ResponseFields(a)) == Some(Expected(a))
  {
    hide Read, ReadNamed, ReadTables, SizesOk, TablesBytes, Accepted, AllMatch, AllSized, AllLegible, Fresh, ResponseFields, XmlFits, FewRows, ValueBytes;
    AnswerFacts(a);
    ReturnableParts(a);
    TablesPreflighted(a);
    ResponseRead(a);
    NamedForward(Start(), a.exports);
    var w := Walk(Start().result.(scalars := [] + a.exports), {} + NameSet(NamesOf(a.exports)));
    assert {} + NameSet(NamesOf(a.exports)) == NameSet(NamesOf(a.exports)) && [] + a.exports == a.exports;
    TablesForward(w, a.tables);
    assert [] + ExpectedTables(a.tables) == ExpectedTables(a.tables) && [] + ExpectedXmls(a.xml) == ExpectedXmls(a.xml);
  }

  lemma ReturnedIsReturnable(a: Answer)
    requires Accepted(a) && GroupResult(ResponseFields(a)) == Some(Expected(a))
    ensures Returnable(a)
  {
    hide Read, ReadNamed, ReadTables, SizesOk, TablesBytes, Accepted, AllMatch, AllSized, AllLegible, Fresh, ResponseFields, XmlFits, FewRows, ValueBytes, Returnable;
    AnswerFacts(a);
    ResponseRead(a);
    var w := ReadNamed(Start(), a.exports).value;
    NamedKeeps(Start(), a.exports);
    TablesKeep(w, a.tables);
    assert [] + a.exports == a.exports && [] + ExpectedTables(a.tables) == ExpectedTables(a.tables);
    NamedBackward(Start(), a.exports);
    TablesBackward(w, a.tables);
    assert {} + NameSet(NamesOf(a.exports)) == NameSet(NamesOf(a.exports));
    ReturnableParts(a);
  }

  /** What the client ends up with: nothing, an error, or the result of a success. */
  ghost function ClientResult(data: seq<byte>): Option<Result> {
    match Received(data)
    case None => None
    case Some(reply) => if reply.envelope.kind == EE.Success then GroupResult(reply.fields) else None
  }

  /** An encoded answer is a success, and its scalars, tables and XML values come back in order and unchanged
      exactly when the names are legible and distinct and no table has empty rows; a legible name keeps to the basic plane. */
  lemma ResponseRoundTripIff(a: Answer)
    requires Accepted(a)
    ensures AllEncodable(ResponseFields(a))
    ensures ClientResult(Framed(ResponseFields(a))) == Some(Expected(a)) <==> Returnable(a)
  {
    hide Received, GroupResult, ResponseFields, Framed, Returnable, Expected, Accepted;
    AnswerIsReceived(a);
    if Returnable(a) { ReturnableIsReturned(a); }
    if GroupResult(ResponseFields(a)) == Some(Expected(a)) { ReturnedIsReturnable(a); }
  }

  // ---- declared exceptions ----

  lemma WideUnit(key: Name, i: nat)
    requires i < |key|
    ensures EE.UnitAt(Wide(key), 2 * i) == key[i]
  {
    assert (2 * i) % 2 == 0 && (2 * i) / 2 == i && (2 * i + 1) % 2 == 1 && (2 * i + 1) / 2 == i;
  }

  /** Strict decoding gives the units back unless one of them is NUL. */
  lemma {:induction false} StrictUnits(key: Name, i: nat)
    requires BasicPlane(key) && i <= |key|
    ensures EE.Units(Wide(key), 2 * i) == if 0 in key[i..] then None else Some(key[i..])
    decreases |key| - i
  {
    hide Wide, EE.UnitAt;
    if i == |key| {
      assert key[i..] == [];
    } else {
      WideUnit(key, i);
      StrictUnits(key, i + 1);
      assert key[i..] == [key[i]] + key[i + 1..];
      assert 2 * i + 2 == 2 * (i + 1);
    }
  }

  lemma KeyText(key: Name)
    requires BasicPlane(key)
    ensures EE.DecodeText(Wide(key)) == if 0 in key then None else Some(EE.Trimmed(key))
  {
    hide Wide;
    StrictUnits(key, 0);
    assert key[0..] == key;
  }

  lemma {:induction false} TrimmedIff(t: EE.Text)
    ensures |EE.Trimmed(t)| < |t| || EE.Trimmed(t) == t
    ensures (EE.Trimmed(t) == t <==> t == [] || t[|t| - 1] != 0x20)
  {
    if t != [] && t[|t| - 1] == 0x20 { TrimmedIff(t[..|t| - 1]); }
  }

  lemma OneField(f: Field, m: EE.Measure)
    ensures EE.Total(m, [f]) == EE.Weight(m, f)
    ensures EE.Facts([f]) == if f.tag in EE.TEXT_TAGS && EE.DecodeText(f.value).Some? then map[f.tag := EE.DecodeText(f.value).value] else map[]
  {
    hide EE.DecodeText;
    EE.TotalOne(m, f);
    assert [f][..0] == [];
  }

  lemma ExceptionJudged(key: Name)
    requires key != [] && BasicPlane(key)
    ensures EE.Judge(RESPONSE_OPTIONS, [Field(0x0401, Wide(key))]) ==
            if 2 * |key| > 0x10_0000 || 0 in key || EE.Trimmed(key) == [] then None
            else Some(EE.Envelope(EE.AbapException, EE.NotApplicable, map[EE.EXCEPTION_KEY := EE.Trimmed(key)]))
  {
    hide EE.Total, EE.Facts, EE.DecodeText, Wide, EE.Acceptable, EE.Trimmed, EE.Classify, EE.HasZeroControl;
    var f := Field(0x0401, Wide(key));
    KeyText(key);
    KeyClassified(EE.Trimmed(key), EE.HasZeroControl([f]));
    OneField(f, EE.OfTag(EE.USE_CLASS_EXCEPTIONS));
    OneField(f, EE.OfTag(EE.CLASS_EXCEPTION_INFO));
    OneTextAcceptable(f);
  }

  lemma KeyClassified(t: EE.Text, zero: bool)
    ensures EE.Classify(map[EE.EXCEPTION_KEY := t], zero, false, false)
            == if t == [] then None else Some(EE.Envelope(EE.AbapException, EE.NotApplicable, map[EE.EXCEPTION_KEY := t]))
  {
  }

  lemma OneTextAcceptable(f: Field)
    requires f.tag == 0x0401
    ensures EE.Acceptable(RESPONSE_OPTIONS, [f]) <==> |f.value| <= 0x10_0000 && EE.DecodeText(f.value).Some?
  {
    hide EE.Total, EE.Facts, EE.DecodeText;
    OneField(f, EE.TextBytes);
    OneField(f, EE.ControlBytes);
    OneField(f, EE.Controls);
    forall tag: Tag ensures EE.Total(EE.OfTag(tag), [f]) <= 1 { OneField(f, EE.OfTag(tag)); }
    assert EE.FieldsOk(RESPONSE_OPTIONS, [f]) <==> EE.FieldOk(RESPONSE_OPTIONS, f) by { assert [f][0] == f; }
  }

  /** The exception key the client reports, if it reports an exception. */
  ghost function ClientException(data: seq<byte>): Option<EE.Text> {
    match Received(data)
    case None => None
    case Some(reply) =>
      if reply.envelope.kind == EE.AbapException && EE.EXCEPTION_KEY in reply.envelope.facts
      then Some(reply.envelope.facts[EE.EXCEPTION_KEY]) else None
  }

  /** An exception response is reported as an exception with the same key exactly when the key has no NUL and nothing
      beyond the basic plane, does not end in a blank and fits the text limit. */
  lemma ExceptionRoundTripIff(key: Name)
    requires key != [] && Within(DEFAULT_LIMITS, ExceptionFields(key))
    ensures AllEncodable(ExceptionFields(key))
    ensures ClientException(Framed(ExceptionFields(key))) == Some(key)
            <==> BasicPlane(key) && 0 !in key && key[|key| - 1] != BLANK && 2 * |key| <= 0x10_0000
  {
    hide Received, Framed, EE.Judge, EE.Trimmed, Wide, ChainLength, Flattened, BasicPlane;
    ExceptionReported(key);
    var flat := Flattened(key);
    FlattenedIff(key);
    TrimmedIff(flat);
  }

  /** What the client reports: the key as the server wrote it, without its trailing blanks. */
  lemma ExceptionReported(key: Name)
    requires key != [] && Within(DEFAULT_LIMITS, ExceptionFields(key))
    ensures AllEncodable(ExceptionFields(key))
    ensures var flat := Flattened(key);
            ClientException(Framed(ExceptionFields(key)))
            == if 2 * |flat| > 0x10_0000 || 0 in flat || EE.Trimmed(flat) == [] then None else Some(EE.Trimmed(flat))
  {
    hide Received, Framed, EE.Judge, EE.Trimmed, Wide, ChainLength, Flattened, BasicPlane;
    var f := Field(0x0401, Written(Server, key));
    assert ExceptionFields(key) == [f] + [END_FIELD];
    FramedIsReceived([f]);
    EE.EndOfBody([f]);
    FlattenedIff(key);
    ExceptionJudged(Flattened(key));
  }

  // ---- characters beyond the basic plane ----

  /** The script capital A, U+1D49C. */
  const SCRIPT_A: Name := [0xd835, 0xdc9c]

  lemma ScriptIsFlattened()
    ensures Flattened(SCRIPT_A) == [REPLACEMENT] && Utf8Length(SCRIPT_A) == 4
  {
    assert SCRIPT_A[2..] == [];
    assert Flattened([]) == [] && Utf8Length([]) == 0;
  }

  /** A server accepts an export of that name, and the client gets one named U+FFFD. */
  lemma SupplementaryIsReplaced(value: seq<byte>)
    requires |value| <= 1000
    ensures var a := Answer([NamedValue(SCRIPT_A, value)], [], []);
            && Accepted(a) && AllEncodable(ResponseFields(a))
            && ClientResult(Framed(ResponseFields(a))) == Some(Result([], [NamedValue([REPLACEMENT], value)], [], []))
            && ClientResult(Framed(ResponseFields(a))) != Some(Expected(a))
  {
    hide ClientResult, Framed, Wide;
    var a, b := Answer([NamedValue(SCRIPT_A, value)], [], []), Answer([NamedValue([REPLACEMENT], value)], [], []);
    ScriptIsFlattened();
    ReplacementIsKept();
    SameFields(SCRIPT_A, [REPLACEMENT], value);
    SmallIsAccepted(SCRIPT_A, value);
    SmallIsAccepted([REPLACEMENT], value);
    ResponseRoundTripIff(b);
    assert ExpectedTables([]) == [] && ExpectedXmls([]) == [];
    assert NamesOf(b.exports) + TableNames([]) == [[REPLACEMENT]];
  }

  lemma ReplacementIsKept()
    ensures Flattened([REPLACEMENT]) == [REPLACEMENT] && Utf8Length([REPLACEMENT]) == 3
  {
    assert [REPLACEMENT][1..] == [];
    assert Flattened([]) == [] && Utf8Length([]) == 0;
  }

  lemma SameFields(name: Name, other: Name, value: seq<byte>)
    requires Flattened(name) == Flattened(other)
    ensures ResponseFields(Answer([NamedValue(name, value)], [], [])) == ResponseFields(Answer([NamedValue(other, value)], [], []))
  {
    hide Wide, Flattened;
    OneNamed(NamedValue(name, value));
    OneNamed(NamedValue(other, value));
  }

  lemma OneNamed(v: NamedValue)
    ensures NamedFields(Server, [v]) == ValueFields(Server, v)
  {
    hide Written;
    assert [v][..0] == [];
    assert NamedFields(Server, []) == [];
  }

  lemma SmallIsAccepted(name: Name, value: seq<byte>)
    requires NameOk(Server, name) && |Flattened(name)| == 1 && |value| <= 1000
    ensures Accepted(Answer([NamedValue(name, value)], [], []))
  {
    hide Wide, Flattened, NameOk;
    var a, v := Answer([NamedValue(name, value)], [], []), NamedValue(name, value);
    OneNamed(v);
    assert TableFields(Server, []) == [] && XmlFields([]) == [];
    var fields := [SUCCESS_CONTROL] + ValueFields(Server, v) + [END_FIELD];
    assert ResponseFields(a) == fields;
    ChainLengthSplit([SUCCESS_CONTROL] + ValueFields(Server, v), [END_FIELD]);
    ChainLengthSplit([SUCCESS_CONTROL], ValueFields(Server, v));
    ChainLengthSplit([ValueFields(Server, v)[0]], [ValueFields(Server, v)[1]]);
    assert ValueFields(Server, v) == [ValueFields(Server, v)[0]] + [ValueFields(Server, v)[1]];
    OneRecord0(SUCCESS_CONTROL);
    OneRecord0(ValueFields(Server, v)[0]);
    OneRecord0(ValueFields(Server, v)[1]);
    OneRecord0(END_FIELD);
  }
}
