/** The server's CUT responses and the client's reading of them. */
module CutResponse {
  import opened Bytes
  import opened CutNames
  import opened FieldChain
  import opened CutFields
  import ErrorEnvelope
  import opened ClassicResult

  const RESPONSE_START: Tag := 0x0500
  const RESPONSE_PREFIX: seq<byte> := [5, 0, 0, 0]
  const TRAILER: seq<byte> := [0xff, 0xff]
  const SUCCESS_CONTROL := Field(0x0420, [0, 0, 0, 0])
  const END_FIELD := Field(CutFields.END, [])

  // ---- encoding ----

  datatype Answer = Answer(exports: seq<NamedValue>, tables: seq<Table>, xml: seq<NamedValue>)

  /** What follows the success control. */
  function DataFields(a: Answer): seq<Field> { NamedFields(Server, a.exports) + TableFields(Server, a.tables) + XmlFields(a.xml) }

  function BodyFields(a: Answer): seq<Field> { [SUCCESS_CONTROL] + DataFields(a) }

  function ResponseFields(a: Answer): seq<Field> { BodyFields(a) + [END_FIELD] }

  predicate Accepted(a: Answer) {
    && (forall k :: 0 <= k < |a.exports| ==> NameOk(Server, a.exports[k].name))
    && (forall k :: 0 <= k < |a.tables| ==> TableOk(Server, a.tables[k]))
    && (forall k :: 0 <= k < |a.xml| ==> XmlOk(Server, a.xml[k]))
    && Within(DEFAULT_LIMITS, ResponseFields(a))
  }

  function Framed(fields: seq<Field>): seq<byte>
    requires AllEncodable(fields)
  {
    RESPONSE_PREFIX + ChainBytes(RESPONSE_START, fields) + TRAILER
  }

  lemma EncodableWithin(fields: seq<Field>)
    requires Within(DEFAULT_LIMITS, fields)
    ensures AllEncodable(fields)
  {
  }

  method EncodeCutFunctionResponse(a: Answer) returns (r: Option<seq<byte>>)
    ensures r.Some? <==> Accepted(a)
    ensures r.Some? ==> AllEncodable(ResponseFields(a)) && r.value == Framed(ResponseFields(a))
  {
    hide TableOk, Within, ChainBytes, ChainLength, TableFields, NamedFields, XmlFields, NameOk, XmlOk;
    var fields := [SUCCESS_CONTROL];
    var exports := WriteNamed(Server, a.exports);
    if exports.None? {
      return None;
    }
    var tables := WriteTables(Server, a.tables);
    if tables.None? {
      return None;
    }
    var xml := WriteXml(Server, a.xml);
    if xml.None? {
      return None;
    }
    fields := fields + (exports.value + tables.value + xml.value) + [END_FIELD];
    assert fields == ResponseFields(a);
    var chain := EncodeFieldChain(RESPONSE_START, fields, DEFAULT_LIMITS);
    if chain.None? {
      return None;
    }
    r := Some(RESPONSE_PREFIX + chain.value + TRAILER);
  }

  function ExceptionFields(key: Name): seq<Field> { [Field(0x0401, Written(Server, key)), END_FIELD] }

  method EncodeCutFunctionExceptionResponse(key: Name) returns (r: Option<seq<byte>>)
    ensures r.Some? <==> key != [] && Within(DEFAULT_LIMITS, ExceptionFields(key))
    ensures r.Some? ==> AllEncodable(ExceptionFields(key)) && r.value == Framed(ExceptionFields(key))
  {
    hide Within, ChainBytes, Wide, Flattened;
    if key == [] {
      return None;
    }
    var text := EncodeUtf16Le(key);
    var chain := EncodeFieldChain(RESPONSE_START, [Field(0x0401, text), END_FIELD], DEFAULT_LIMITS);
    if chain.None? {
      return None;
    }
    r := Some(RESPONSE_PREFIX + chain.value + TRAILER);
  }

  // ---- the client's envelope decoder ----

  /** The tags a function response may carry beside the classic ones. */
  const EXTENSION_TAGS: set<Tag> := {0x0130, 0x0667, 0x3c02, 0x3c05, 0x0104, 0x0331, 0x0333, 0x0334, 0x0335, 0x0336}

  const RESPONSE_OPTIONS := ErrorEnvelope.DEFAULT_OPTIONS.(maxFieldCount := 100_000, additional := EXTENSION_TAGS)

  datatype Reply = Reply(envelope: ErrorEnvelope.Envelope, fields: seq<Field>)

  ghost function Received(data: seq<byte>): Option<Reply> {
    if |data| < |RESPONSE_PREFIX| + 8 || !(RESPONSE_PREFIX <= data) then None
    else
      match DecodeChain(data[|RESPONSE_PREFIX|..], RESPONSE_START, Some(CutFields.END), DEFAULT_LIMITS)
      case None => None
      case Some(d) =>
        if data[Min(|RESPONSE_PREFIX| + d.consumed, |data|)..] != TRAILER then None
        else
          match ErrorEnvelope.Verdict(RESPONSE_OPTIONS, d.fields)
          case None => None
          case Some(envelope) => Some(Reply(envelope, d.fields))
  }

  method DecodeFunctionResultFields(data: seq<byte>) returns (r: Option<Reply>)
    ensures r == Received(data)
  {
    hide DecodeChain, ErrorEnvelope.Verdict;
    if |data| < |RESPONSE_PREFIX| + 8 {
      return None;
    }
    if data[..|RESPONSE_PREFIX|] != RESPONSE_PREFIX {
      return None;
    }
    var chain := DecodeFieldChainRegion(data[|RESPONSE_PREFIX|..], RESPONSE_START, Some(CutFields.END), DEFAULT_LIMITS);
    if chain.None? {
      return None;
    }
    var trailerOffset := |RESPONSE_PREFIX| + chain.value.consumed;
    if |data| - trailerOffset != 2 {
      return None;
    }
    if TagAt(data, trailerOffset) != 0xffff {
      return None;
    }
    assert data[trailerOffset..] == [data[trailerOffset], data[trailerOffset + 1]];
    var envelope := ErrorEnvelope.Decode(chain.value.fields, RESPONSE_OPTIONS);
    if envelope.None? {
      return None;
    }
    r := Some(Reply(envelope.value, chain.value.fields));
  }

  /** A framed list whose only End is its last field comes back as it was. */
  lemma FramedIsReceived(body: seq<Field>)
    requires Within(DEFAULT_LIMITS, body + [END_FIELD]) && NoTag(body, Some(CutFields.END))
    ensures AllEncodable(body + [END_FIELD])
    ensures var fields := body + [END_FIELD];
            var verdict := ErrorEnvelope.Verdict(RESPONSE_OPTIONS, fields);
            Received(Framed(fields)) == if verdict.None? then None else Some(Reply(verdict.value, fields))
  {
    hide DecodeChain, ErrorEnvelope.Verdict, ChainBytes, ChainLength, NoTag;
    var fields := body + [END_FIELD];
    EncodableWithin(fields);
    PrefixRoundTrip(RESPONSE_START, body, END_FIELD, TRAILER, DEFAULT_LIMITS);
    var chain := ChainBytes(RESPONSE_START, fields);
    var data := Framed(fields);
    assert data == RESPONSE_PREFIX + (chain + TRAILER);
    assert data[|RESPONSE_PREFIX|..] == chain + TRAILER;
    assert data[|RESPONSE_PREFIX| + |chain|..] == TRAILER;
    AtLeastEnd(body);
  }

  lemma AtLeastEnd(body: seq<Field>)
    ensures ChainLength(body + [END_FIELD]) >= 6
  {
    hide ChainLength;
    ChainLengthSplit(body, [END_FIELD]);
    OneRecord(0, END_FIELD);
  }
}
