/** RFCPRO tag/length headers and the CPIC field chain, in which each record also names the tag before it. */
module FieldChain {
  import opened Bytes

  type Tag = x: int | 0 <= x < 0x1_0000

  const SENTINEL := 0xffff
  const COMPACT_MAX := 0xfffe
  const VALUE_MAX := 0x7fff_ffff

  // ---- headers ----

  function HeaderLength(n: int): Option<nat> {
    if n < 0 || n > VALUE_MAX then None else if n <= COMPACT_MAX then Some(4) else Some(8)
  }

  function EncodeHeader(tag: Tag, n: int): Option<seq<byte>> {
    if HeaderLength(n).None? then None
    else if n <= COMPACT_MAX then Some(U16(tag) + U16(n))
    else Some(U16(tag) + U16(SENTINEL) + U32(n))
  }

  datatype Header = Header(tag: Tag, length: nat, consumed: nat)

  function TagAt(data: seq<byte>, i: nat): Tag
    requires i + 2 <= |data|
  {
    data[i] as int * 256 + data[i + 1]
  }

  function DecodeHeaderLimited(data: seq<byte>, maxLength: int): Option<Header> {
    if maxLength < 0 || maxLength > VALUE_MAX || |data| < 4 then None
    else
      var compact := TagAt(data, 2);
      if compact != SENTINEL then
        if compact > maxLength then None else Some(Header(TagAt(data, 0), compact, 4))
      else if |data| < 8 then None
      else
        var extended := BigEndian(data[4..8]);
        if extended > maxLength then None else Some(Header(TagAt(data, 0), extended, 8))
  }

  lemma TagOfU16(data: seq<byte>, i: nat, tag: Tag)
    requires At(data, i, U16(tag))
    ensures TagAt(data, i) == tag
  {
    AtIndex(data, i, U16(tag), 0);
    AtIndex(data, i, U16(tag), 1);
  }

  /** A header comes back, whatever follows it, exactly when its length is within the limit. */
  lemma HeaderRoundTripIff(tag: Tag, n: nat, maxLength: nat, rest: seq<byte>)
    requires n <= VALUE_MAX && maxLength <= VALUE_MAX
    ensures EncodeHeader(tag, n).Some? && |EncodeHeader(tag, n).value| == HeaderLength(n).value
    ensures DecodeHeaderLimited(EncodeHeader(tag, n).value + rest, maxLength) ==
            if n <= maxLength then Some(Header(tag, n, HeaderLength(n).value)) else None
  {
    var h := EncodeHeader(tag, n).value;
    var data := h + rest;
    assert At(data, 0, U16(tag));
    TagOfU16(data, 0, tag);
    if n <= COMPACT_MAX {
      assert At(data, 2, U16(n));
      TagOfU16(data, 2, n);
    } else {
      assert At(data, 2, U16(SENTINEL));
      TagOfU16(data, 2, SENTINEL);
      assert data[4..8] == U32(n);
      BigEndianOfU32(n);
    }
  }

  // ---- chains ----

  datatype Field = Field(tag: Tag, value: seq<byte>)

  datatype Limits = Limits(maxFieldLength: int, maxChainLength: int, maxFieldCount: int)

  const DEFAULT_LIMITS := Limits(0x1000_0000, 0x1000_0000, 100_000)

  predicate LimitsOk(l: Limits) {
    0 <= l.maxFieldLength <= VALUE_MAX && 0 <= l.maxChainLength <= VALUE_MAX && 0 <= l.maxFieldCount
  }

  function RecordLength(f: Field): nat { 2 + (if |f.value| <= COMPACT_MAX then 4 else 8) + |f.value| }

  function ChainLength(fields: seq<Field>): nat {
    if fields == [] then 0 else RecordLength(fields[0]) + ChainLength(fields[1..])
  }

  predicate Encodable(f: Field) { |f.value| <= VALUE_MAX }

  function RecordBytes(previous: Tag, f: Field): (r: seq<byte>)
    requires Encodable(f)
    ensures |r| == RecordLength(f)
  {
    U16(previous) + EncodeHeader(f.tag, |f.value|).value + f.value
  }

  predicate AllEncodable(fields: seq<Field>) { forall k :: 0 <= k < |fields| ==> Encodable(fields[k]) }

  function ChainBytes(previous: Tag, fields: seq<Field>): (r: seq<byte>)
    requires AllEncodable(fields)
    ensures |r| == ChainLength(fields)
    decreases |fields|
  {
    if fields == [] then [] else RecordBytes(previous, fields[0]) + ChainBytes(fields[0].tag, fields[1..])
  }

  predicate FieldsFit(l: Limits, fields: seq<Field>) { forall k :: 0 <= k < |fields| ==> |fields[k].value| <= l.maxFieldLength }

  /** Exactly what the encoder takes. */
  predicate Within(l: Limits, fields: seq<Field>) {
    LimitsOk(l) && |fields| <= l.maxFieldCount && FieldsFit(l, fields) && ChainLength(fields) <= l.maxChainLength
  }

  lemma {:induction false} ChainLengthSplit(a: seq<Field>, b: seq<Field>)
    ensures ChainLength(a + b) == ChainLength(a) + ChainLength(b)
    decreases |a|
  {
    if a == [] {
      assert a + b == b;
    } else {
      assert (a + b)[1..] == a[1..] + b;
      ChainLengthSplit(a[1..], b);
    }
  }

  /** The tag a chain leaves behind. */
  function LastTag(previous: Tag, fields: seq<Field>): Tag {
    if fields == [] then previous else fields[|fields| - 1].tag
  }

  lemma EncodableParts(a: seq<Field>, b: seq<Field>)
    requires AllEncodable(a) && AllEncodable(b)
    ensures AllEncodable(a + b)
  {
  }

  lemma Regroup(a: seq<byte>, b: seq<byte>, c: seq<byte>)
    ensures a + (b + c) == (a + b) + c
  {
  }

  lemma {:induction false} ChainBytesSplit(previous: Tag, a: seq<Field>, b: seq<Field>)
    requires AllEncodable(a) && AllEncodable(b)
    ensures AllEncodable(a + b)
    ensures ChainBytes(previous, a + b) == ChainBytes(previous, a) + ChainBytes(LastTag(previous, a), b)
    decreases |a|
  {
    hide RecordBytes, Encodable;
    if a == [] {
      assert a + b == b;
    } else {
      assert (a + b)[1..] == a[1..] + b;
      ChainBytesSplit(a[0].tag, a[1..], b);
      EncodableParts(a, b);
      Regroup(RecordBytes(previous, a[0]), ChainBytes(a[0].tag, a[1..]), ChainBytes(LastTag(previous, a), b));
    }
  }

  /** The length pass: accepts exactly what is within the limits, although it looks at one field at a time. */
  method FieldChainByteLength(fields: seq<Field>, l: Limits) returns (r: Option<nat>)
    ensures r == if Within(l, fields) then Some(ChainLength(fields)) else None
  {
    if !LimitsOk(l) {
      return None;
    }
    if |fields| > l.maxFieldCount {
      return None;
    }
    var byteLength := 0;
    for k := 0 to |fields|
      invariant byteLength == ChainLength(fields[..k]) <= l.maxChainLength
      invariant FieldsFit(l, fields[..k])
    {
      var n := |fields[k].value|;
      assert fields == fields[..k] + ([fields[k]] + fields[k + 1..]);
      ChainLengthSplit(fields[..k], [fields[k]] + fields[k + 1..]);
      ChainLengthSplit([fields[k]], fields[k + 1..]);
      ChainLengthSplit(fields[..k], [fields[k]]);
      assert fields[..k + 1] == fields[..k] + [fields[k]];
      if n > l.maxFieldLength {
        return None;
      }
      var h := HeaderLength(n);
      if h.None? {
        return None;
      }
      byteLength := byteLength + 2 + h.value + n;
      if byteLength > l.maxChainLength {
        return None;
      }
    }
    assert fields[..|fields|] == fields;
    r := Some(byteLength);
  }

  /** The encoding fills a buffer of the computed length to the last byte. */
  method EncodeFieldChain(previous: Tag, fields: seq<Field>, l: Limits) returns (r: Option<seq<byte>>)
    ensures r.Some? <==> Within(l, fields)
    ensures r.Some? ==> AllEncodable(fields) && r.value == ChainBytes(previous, fields)
  {
    hide RecordBytes, ChainBytes, ChainLength;
    var byteLength := FieldChainByteLength(fields, l);
    if byteLength.None? {
      return None;
    }
    assert AllEncodable(fields);
    NoRecords(previous);
    var encoded := new byte[byteLength.value];
    var offset := 0;
    var previousTag := previous;
    for k := 0 to |fields|
      invariant offset == ChainLength(fields[..k]) <= encoded.Length
      invariant AllEncodable(fields[..k]) && previousTag == LastTag(previous, fields[..k])
      invariant encoded[..offset] == ChainBytes(previous, fields[..k])
    {
      var f := fields[k];
      NextRecord(previous, fields, k);
      WriteRecord(encoded, offset, previousTag, f);
      offset := offset + RecordLength(f);
      previousTag := f.tag;
    }
    assert fields[..|fields|] == fields;
    assert encoded[..offset] == encoded[..];
    r := Some(encoded[..]);
  }

  lemma NoRecords(previous: Tag)
    ensures ChainLength([]) == 0 && ChainBytes(previous, []) == []
  {
  }

  lemma NextRecord(previous: Tag, fields: seq<Field>, k: nat)
    requires AllEncodable(fields) && k < |fields|
    ensures AllEncodable(fields[..k]) && AllEncodable(fields[..k + 1])
    ensures ChainBytes(previous, fields[..k + 1])
            == ChainBytes(previous, fields[..k]) + RecordBytes(LastTag(previous, fields[..k]), fields[k])
    ensures ChainLength(fields[..k + 1]) == ChainLength(fields[..k]) + RecordLength(fields[k]) <= ChainLength(fields)
  {
    hide RecordBytes, ChainBytes, ChainLength;
    assert fields[..k + 1] == fields[..k] + [fields[k]];
    ChainBytesSplit(previous, fields[..k], [fields[k]]);
    ChainLengthSplit(fields[..k], [fields[k]]);
    ChainLengthSplit(fields[..k + 1], fields[k + 1..]);
    assert fields == fields[..k + 1] + fields[k + 1..];
    OneRecord(LastTag(previous, fields[..k]), fields[k]);
  }

  lemma OneRecord(previous: Tag, f: Field)
    requires Encodable(f)
    ensures ChainBytes(previous, [f]) == RecordBytes(previous, f) && ChainLength([f]) == RecordLength(f)
  {
  }

  method WriteRecord(encoded: array<byte>, start: nat, previousTag: Tag, f: Field)
    requires Encodable(f) && start + RecordLength(f) <= encoded.Length
    modifies encoded
    ensures encoded[..start + RecordLength(f)] == old(encoded[..start]) + RecordBytes(previousTag, f)
  {
    hide U16;
    var offset := start;
    CopyInto(encoded, offset, U16(previousTag));
    offset := offset + 2;
    var header := EncodeHeader(f.tag, |f.value|).value;
    CopyInto(encoded, offset, header);
    offset := offset + |header|;
    CopyInto(encoded, offset, f.value);
  }

  // ---- decoding ----

  /** One record at off whose predecessor is expected. */
  function ParseRecord(data: seq<byte>, off: nat, expected: Tag, l: Limits): (r: Option<(Field, nat)>)
    ensures r.Some? ==> off + 6 <= r.value.1 <= |data|
  {
    if off + 6 > l.maxChainLength || off + 6 > |data| || TagAt(data, off) != expected then None
    else
      var extended := TagAt(data, off + 4) == SENTINEL;
      if extended && (off + 10 > l.maxChainLength || off + 10 > |data|) then None
      else
        match DecodeHeaderLimited(data[off + 2..off + if extended then 10 else 6], l.maxFieldLength)
        case None => None
        case Some(h) =>
          var start := off + 2 + h.consumed;
          if start + h.length > l.maxChainLength || start + h.length > |data| then None
          else Some((Field(h.tag, data[start..start + h.length]), start + h.length))
  }

  datatype Decoded = Decoded(fields: seq<Field>, consumed: nat)

  function DecodeRegion(data: seq<byte>, off: nat, expected: Tag, fields: seq<Field>, terminal: Option<Tag>, l: Limits): Option<Decoded>
    decreases |data| - off
  {
    if off >= |data| then
      if terminal.None? then Some(Decoded(fields, off)) else None
    else if |fields| >= l.maxFieldCount then None
    else
      match ParseRecord(data, off, expected, l)
      case None => None
      case Some((f, next)) =>
        if terminal == Some(f.tag) then Some(Decoded(fields + [f], next))
        else DecodeRegion(data, next, f.tag, fields + [f], terminal, l)
  }

  function DecodeChain(data: seq<byte>, previous: Tag, terminal: Option<Tag>, l: Limits): Option<Decoded> {
    if !LimitsOk(l) || (terminal.None? && |data| > l.maxChainLength) then None
    else DecodeRegion(data, 0, previous, [], terminal, l)
  }

  method ReadRecord(data: seq<byte>, offset: nat, expected: Tag, l: Limits) returns (r: Option<(Field, nat)>)
    ensures r == ParseRecord(data, offset, expected, l)
  {
    hide DecodeHeaderLimited;
    if offset + 6 > l.maxChainLength || offset + 6 > |data| {
      return None;
    }
    if TagAt(data, offset) != expected {
      return None;
    }
    var snapshot := data[offset + 2..offset + 6];
    if TagAt(data, offset + 4) == SENTINEL {
      if offset + 10 > l.maxChainLength || offset + 10 > |data| {
        return None;
      }
      snapshot := data[offset + 2..offset + 10];
    }
    var header := DecodeHeaderLimited(snapshot, l.maxFieldLength);
    if header.None? {
      return None;
    }
    var valueOffset := offset + 2 + header.value.consumed;
    var nextOffset: nat := valueOffset + header.value.length;
    if nextOffset > l.maxChainLength || nextOffset > |data| {
      return None;
    }
    r := Some((Field(header.value.tag, data[valueOffset..nextOffset]), nextOffset));
  }

  method DecodeFieldChainRegion(data: seq<byte>, previous: Tag, terminal: Option<Tag>, l: Limits) returns (r: Option<Decoded>)
    ensures r == DecodeChain(data, previous, terminal, l)
  {
    hide ParseRecord;
    if !LimitsOk(l) {
      return None;
    }
    if terminal.None? && |data| > l.maxChainLength {
      return None;
    }
    var fields: seq<Field> := [];
    var expected := previous;
    var offset: nat := 0;
    while offset < |data|
      invariant offset <= |data|
      invariant DecodeChain(data, previous, terminal, l) == DecodeRegion(data, offset, expected, fields, terminal, l)
      decreases |data| - offset
    {
      if |fields| >= l.maxFieldCount {
        return None;
      }
      var record := ReadRecord(data, offset, expected, l);
      if record.None? {
        return None;
      }
      var (f, nextOffset) := record.value;
      fields := fields + [f];
      offset := nextOffset;
      expected := f.tag;
      if terminal == Some(f.tag) {
        return Some(Decoded(fields, offset));
      }
    }
    if terminal.Some? {
      return None;
    }
    r := Some(Decoded(fields, offset));
  }

  // ---- decoding undoes encoding ----

  lemma RecordParses(data: seq<byte>, off: nat, previous: Tag, f: Field, l: Limits)
    requires LimitsOk(l) && |f.value| <= l.maxFieldLength && off + RecordLength(f) <= l.maxChainLength
    requires At(data, off, RecordBytes(previous, f))
    ensures ParseRecord(data, off, previous, l) == Some((f, off + RecordLength(f)))
  {
    hide U16, DecodeHeaderLimited;
    var n := |f.value|;
    var header := EncodeHeader(f.tag, n).value;
    AtSplit(data, off, U16(previous) + header, f.value);
    AtSplit(data, off, U16(previous), header);
    TagOfU16(data, off, previous);
    AtSlice(data, off + 2, header);
    AtSlice(data, off + 2 + |header|, f.value);
    HeaderRoundTripIff(f.tag, n, l.maxFieldLength, []);
    assert header + [] == header;
    LengthWord(data, off + 2, f.tag, n);
  }

  lemma LengthWord(data: seq<byte>, i: nat, tag: Tag, n: nat)
    requires n <= VALUE_MAX && At(data, i, EncodeHeader(tag, n).value)
    ensures i + 4 <= |data| && (TagAt(data, i + 2) == SENTINEL <==> n > COMPACT_MAX)
  {
    hide U16, U32;
    if n <= COMPACT_MAX {
      AtSplit(data, i, U16(tag), U16(n));
      TagOfU16(data, i + 2, n);
    } else {
      AtSplit(data, i, U16(tag) + U16(SENTINEL), U32(n));
      AtSplit(data, i, U16(tag), U16(SENTINEL));
      TagOfU16(data, i + 2, SENTINEL);
    }
  }

  predicate NoTag(fields: seq<Field>, terminal: Option<Tag>) {
    forall k :: 0 <= k < |fields| ==> terminal != Some(fields[k].tag)
  }

  /** Encoded records without the terminal tag are read one after the other, whatever follows them. */
  lemma {:induction false} ChainRead(data: seq<byte>, off: nat, previous: Tag, read: seq<Field>, fields: seq<Field>, terminal: Option<Tag>, l: Limits)
    requires LimitsOk(l) && FieldsFit(l, fields) && AllEncodable(fields) && NoTag(fields, terminal)
    requires off + ChainLength(fields) <= l.maxChainLength && |read| + |fields| <= l.maxFieldCount
    requires At(data, off, ChainBytes(previous, fields))
    ensures DecodeRegion(data, off, previous, read, terminal, l)
            == DecodeRegion(data, off + ChainLength(fields), LastTag(previous, fields), read + fields, terminal, l)
    decreases |fields|
  {
    hide ParseRecord, RecordBytes;
    if fields == [] {
      assert read + fields == read;
    } else {
      var f, rest := fields[0], fields[1..];
      AtSplit(data, off, RecordBytes(previous, f), ChainBytes(f.tag, rest));
      RecordParses(data, off, previous, f, l);
      assert read + [f] + rest == read + fields;
      assert NoTag(rest, terminal) && FieldsFit(l, rest);
      AtSlice(data, off, RecordBytes(previous, f));
      ChainRead(data, off + RecordLength(f), f.tag, read + [f], rest, terminal, l);
    }
  }

  /** Whatever the encoder takes, the decoder under the same limits gives back. */
  lemma ChainRoundTrip(previous: Tag, fields: seq<Field>, l: Limits)
    requires Within(l, fields)
    ensures AllEncodable(fields)
    ensures DecodeChain(ChainBytes(previous, fields), previous, None, l) == Some(Decoded(fields, ChainLength(fields)))
  {
    hide ChainBytes, ParseRecord;
    assert AllEncodable(fields);
    var data := ChainBytes(previous, fields);
    assert At(data, 0, data);
    ChainRead(data, 0, previous, [], fields, None, l);
    assert [] + fields == fields;
  }

  /** Prefix decoding stops right behind the first terminal tag, whatever the bytes after it. */
  lemma PrefixRoundTrip(previous: Tag, body: seq<Field>, end: Field, after: seq<byte>, l: Limits)
    requires Within(l, body + [end]) && NoTag(body, Some(end.tag))
    ensures AllEncodable(body + [end])
    ensures DecodeChain(ChainBytes(previous, body + [end]) + after, previous, Some(end.tag), l)
            == Some(Decoded(body + [end], ChainLength(body + [end])))
  {
    hide ChainBytes, ParseRecord, ChainLength, RecordBytes;
    var fields := body + [end];
    assert AllEncodable(fields);
    assert AllEncodable(body) by { forall k | 0 <= k < |body| ensures Encodable(body[k]) { assert body[k] == fields[k]; } }
    assert FieldsFit(l, body) by { forall k | 0 <= k < |body| ensures |body[k].value| <= l.maxFieldLength { assert body[k] == fields[k]; } }
    assert fields[|body|] == end && Encodable(end);
    var data := ChainBytes(previous, fields) + after;
    ChainBytesSplit(previous, body, [end]);
    ChainLengthSplit(body, [end]);
    OneRecord(LastTag(previous, body), end);
    assert At(data, 0, ChainBytes(previous, body) + RecordBytes(LastTag(previous, body), end));
    AtSplit(data, 0, ChainBytes(previous, body), RecordBytes(LastTag(previous, body), end));
    ChainRead(data, 0, previous, [], body, Some(end.tag), l);
    RecordParses(data, ChainLength(body), LastTag(previous, body), end, l);
    assert [] + body == body;
  }

  // ---- a dropped record ----

  /** The bytes of the chain with record i cut out. */
  function Dropped(previous: Tag, fields: seq<Field>, i: nat): seq<byte>
    requires AllEncodable(fields) && i < |fields|
  {
    ChainBytes(previous, fields[..i]) + ChainBytes(fields[i].tag, fields[i + 1..])
  }

  lemma CutOut(a: seq<byte>, b: seq<byte>, c: seq<byte>)
    ensures a + c == (a + b + c)[..|a|] + (a + b + c)[|a| + |b|..]
  {
  }

  lemma DroppedIsSlice(previous: Tag, fields: seq<Field>, i: nat)
    requires AllEncodable(fields) && i < |fields|
    ensures var whole, start := ChainBytes(previous, fields), ChainLength(fields[..i]);
            start + RecordLength(fields[i]) <= |whole|
            && Dropped(previous, fields, i) == whole[..start] + whole[start + RecordLength(fields[i])..]
  {
    hide ChainBytes, RecordBytes, ChainLength;
    NextRecord(previous, fields, i);
    assert fields == fields[..i + 1] + fields[i + 1..];
    ChainBytesSplit(previous, fields[..i + 1], fields[i + 1..]);
    CutOut(ChainBytes(previous, fields[..i]), RecordBytes(LastTag(previous, fields[..i]), fields[i]),
           ChainBytes(fields[i].tag, fields[i + 1..]));
  }

  /** Cutting out a record is noticed exactly when it has a successor and its tag differs from the tag before it;
      otherwise the rest of the chain decodes as if the record had never been there. */
  lemma DropDetectedIff(previous: Tag, fields: seq<Field>, i: nat, l: Limits)
    requires Within(l, fields) && AllEncodable(fields) && i < |fields|
    ensures var kept := fields[..i] + fields[i + 1..];
            DecodeChain(Dropped(previous, fields, i), previous, None, l) ==
            if i + 1 == |fields| || fields[i].tag == LastTag(previous, fields[..i]) then Some(Decoded(kept, ChainLength(kept)))
            else None
  {
    hide ChainBytes, ChainLength, RecordBytes, DecodeRegion, AllEncodable, FieldsFit;
    var front, back := fields[..i], fields[i + 1..];
    DropKeepsLimits(fields, i, l);
    var kept, data := front + back, Dropped(previous, fields, i);
    NextRecord(previous, fields, i);
    ChainLengthSplit(front, back);
    assert fields == fields[..i + 1] + back;
    ChainLengthSplit(fields[..i + 1], back);
    if i + 1 == |fields| {
      NoRecords(fields[i].tag);
      assert back == [] && kept == front && data == ChainBytes(previous, front);
      ChainRoundTrip(previous, front, l);
    } else if fields[i].tag == LastTag(previous, front) {
      ChainBytesSplit(previous, front, back);
      ChainRoundTrip(previous, kept, l);
    } else {
      assert At(data, 0, ChainBytes(previous, front) + ChainBytes(fields[i].tag, back));
      AtSplit(data, 0, ChainBytes(previous, front), ChainBytes(fields[i].tag, back));
      ChainRead(data, 0, previous, [], front, None, l);
      assert [] + front == front;
      WrongPrevious(data, ChainLength(front), fields[i].tag, back, LastTag(previous, front), front, l);
    }
  }

  lemma DropKeepsLimits(fields: seq<Field>, i: nat, l: Limits)
    requires Within(l, fields) && AllEncodable(fields) && i < |fields|
    ensures var kept := fields[..i] + fields[i + 1..];
            AllEncodable(kept) && FieldsFit(l, kept) && |kept| < l.maxFieldCount
    ensures AllEncodable(fields[..i]) && FieldsFit(l, fields[..i]) && AllEncodable(fields[i + 1..]) && NoTag(fields[..i], None)
  {
    hide ChainLength;
    var kept := fields[..i] + fields[i + 1..];
    forall k | 0 <= k < |kept| ensures Encodable(kept[k]) && |kept[k].value| <= l.maxFieldLength {
      assert kept[k] == if k < i then fields[k] else fields[k + 1];
    }
  }

  lemma WrongPrevious(data: seq<byte>, off: nat, actual: Tag, fields: seq<Field>, expected: Tag, read: seq<Field>, l: Limits)
    requires AllEncodable(fields) && fields != [] && At(data, off, ChainBytes(actual, fields)) && actual != expected
    ensures DecodeRegion(data, off, expected, read, None, l) == None
  {
    hide U16, U32;
    var f := fields[0];
    AtSplit(data, off, RecordBytes(actual, f), ChainBytes(f.tag, fields[1..]));
    AtSplit(data, off, U16(actual) + EncodeHeader(f.tag, |f.value|).value, f.value);
    AtSplit(data, off, U16(actual), EncodeHeader(f.tag, |f.value|).value);
    TagOfU16(data, off, actual);
    AtSlice(data, off, U16(actual));
  }

  /** Three empty fields, the first two with the same tag: the second can be cut out and nobody notices. */
  lemma DropUnnoticed()
    ensures var fields := [Field(0x0101, []), Field(0x0101, []), Field(0x0102, [])];
            && Within(DEFAULT_LIMITS, fields) && AllEncodable(fields)
            && var kept := [fields[0], fields[2]];
               DecodeChain(Dropped(0x0500, fields, 1), 0x0500, None, DEFAULT_LIMITS) == Some(Decoded(kept, ChainLength(kept)))
  {
    hide DecodeChain, Dropped;
    var fields := [Field(0x0101, []), Field(0x0101, []), Field(0x0102, [])];
    ChainLengthSplit([fields[0]], [fields[1]] + [fields[2]]);
    ChainLengthSplit([fields[1]], [fields[2]]);
    assert fields == [fields[0]] + ([fields[1]] + [fields[2]]);
    OneRecord(0x0500, fields[0]);
    OneRecord(0x0101, fields[1]);
    OneRecord(0x0101, fields[2]);
    DropDetectedIff(0x0500, fields, 1, DEFAULT_LIMITS);
    assert fields[..1] + fields[2..] == [fields[0], fields[2]];
  }
}
