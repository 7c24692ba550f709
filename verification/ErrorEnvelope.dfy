/** Classification of the error and control fields of a classic RFC response. */
module ErrorEnvelope {
  import opened Bytes
  import opened FieldChain

  const END: Tag := 0xffff
  const EXCEPTION_KEY: Tag := 0x0401
  const ERROR_MESSAGE: Tag := 0x0402
  const RUNTIME_ID: Tag := 0x0403
  const T100_TEXT: Tag := 0x0404
  const MESSAGE_CLASS: Tag := 0x0415
  const MESSAGE_TYPE: Tag := 0x0416
  const MESSAGE_NUMBER: Tag := 0x0417
  const UNRESOLVED: Tag := 0x0420
  const USE_CLASS_EXCEPTIONS: Tag := 0x0421
  const CLASS_EXCEPTION_INFO: Tag := 0x0422

  const CLASSIC_DATA_TAGS: set<Tag> :=
    {0x0102, 0x0201, 0x0203, 0x0205, 0x0301, 0x0302, 0x0303, 0x0304, 0x0502, 0x0503, 0x0512, 0x0514}
  const TEXT_TAGS: set<Tag> :=
    {0x0401, 0x0402, 0x0403, 0x0404, 0x0411, 0x0412, 0x0413, 0x0414, 0x0415, 0x0416, 0x0417, 0x0418}
  /** Facts that describe an error without saying which kind. */
  const SECONDARY_TAGS: set<Tag> :=
    {0x0411, 0x0412, 0x0413, 0x0414, 0x0418, 0x0402, 0x0404, 0x0415, 0x0416, 0x0417}

  /** A text as its UTF-16 code units. */
  type Text = seq<nat>

  datatype Kind = Success | AbapException | AbapRuntime | AbapMessage
  datatype SuccessControl = ZeroControl | NotApplicable
  datatype Envelope = Envelope(kind: Kind, control: SuccessControl, facts: map<Tag, Text>)

  datatype Options = Options(maxText: int, maxTotalText: int, maxControl: int, maxTotalControl: int,
                             maxControlCount: int, maxFieldCount: int, additional: set<Tag>)

  const DEFAULT_OPTIONS := Options(0x10_0000, 0x40_0000, 0x1000, 0x1_0000, 64, 256, {})

  predicate OptionsOk(o: Options) {
    && 0 <= o.maxText <= VALUE_MAX && 0 <= o.maxTotalText <= VALUE_MAX && 0 <= o.maxControl <= VALUE_MAX
    && 0 <= o.maxTotalControl <= VALUE_MAX && 0 <= o.maxControlCount <= VALUE_MAX && 1 <= o.maxFieldCount <= VALUE_MAX
  }

  // ---- texts ----

  function UnitAt(value: seq<byte>, i: nat): nat
    requires i + 1 < |value|
  {
    value[i] as int + value[i + 1] as int * 256
  }

  predicate HighSurrogate(u: nat) { 0xd800 <= u <= 0xdbff }
  predicate LowSurrogate(u: nat) { 0xdc00 <= u <= 0xdfff }

  /** The code units from i on, when none is NUL and all surrogates are paired. */
  function Units(value: seq<byte>, i: nat): Option<Text>
    requires |value| % 2 == 0 && i % 2 == 0
    decreases |value| - i
  {
    if i >= |value| then Some([])
    else
      var u := UnitAt(value, i);
      if u == 0 || LowSurrogate(u) then None
      else if HighSurrogate(u) then
        if i + 2 >= |value| || !LowSurrogate(UnitAt(value, i + 2)) then None
        else Prepend([u, UnitAt(value, i + 2)], Units(value, i + 4))
      else Prepend([u], Units(value, i + 2))
  }

  function Prepend(t: Text, rest: Option<Text>): Option<Text> {
    if rest.None? then None else Some(t + rest.value)
  }

  /** Without trailing blanks. */
  function Trimmed(t: Text): Text {
    if t != [] && t[|t| - 1] == 0x20 then Trimmed(t[..|t| - 1]) else t
  }

  function DecodeText(value: seq<byte>): Option<Text> {
    if |value| % 2 != 0 then None
    else if Units(value, 0).None? then None
    else Some(Trimmed(Units(value, 0).value))
  }

  method DecodeStrictUtf16(value: seq<byte>, maximum: int) returns (r: Option<Text>)
    ensures r == if |value| > maximum then None else DecodeText(value)
  {
    if |value| > maximum {
      return None;
    }
    if |value| % 2 != 0 {
      return None;
    }
    var units: Text := [];
    var i: nat := 0;
    if Units(value, 0).Some? { assert [] + Units(value, 0).value == Units(value, 0).value; }
    while i < |value|
      invariant i % 2 == 0 && i <= |value|
      invariant Units(value, 0) == Prepend(units, Units(value, i))
      decreases |value| - i
    {
      var u := UnitAt(value, i);
      if u == 0 {
        return None;
      }
      if 0xd800 <= u <= 0xdbff {
        if i + 2 >= |value| {
          return None;
        }
        var low := UnitAt(value, i + 2);
        if low < 0xdc00 || low > 0xdfff {
          return None;
        }
        PrependTwice(units, [u, low], Units(value, i + 4));
        units := units + [u, low];
        i := i + 4;
      } else if 0xdc00 <= u <= 0xdfff {
        return None;
      } else {
        PrependTwice(units, [u], Units(value, i + 2));
        units := units + [u];
        i := i + 2;
      }
    }
    assert units + [] == units;
    r := Some(Trimmed(units));
  }

  lemma PrependTwice(a: Text, b: Text, rest: Option<Text>)
    ensures Prepend(a, Prepend(b, rest)) == Prepend(a + b, rest)
  {
    if rest.Some? { assert a + (b + rest.value) == a + b + rest.value; }
  }

  // ---- the body of an envelope, whatever its order ----

  predicate IsControl(tag: Tag) { tag == UNRESOLVED || tag == USE_CLASS_EXCEPTIONS || tag == CLASS_EXCEPTION_INFO }

  predicate FieldOk(o: Options, f: Field) {
    if f.tag in TEXT_TAGS then |f.value| <= o.maxText && DecodeText(f.value).Some?
    else if IsControl(f.tag) then |f.value| <= o.maxControl
    else f.tag != 0x0423 && f.tag != 0x0424 && (f.tag in CLASSIC_DATA_TAGS || f.tag in o.additional)
  }

  /** What is added up over the fields. */
  datatype Measure = TextBytes | ControlBytes | Controls | OfTag(tag: Tag)

  function Weight(m: Measure, f: Field): nat {
    match m
    case TextBytes => if f.tag in TEXT_TAGS then |f.value| else 0
    case ControlBytes => if IsControl(f.tag) then |f.value| else 0
    case Controls => if IsControl(f.tag) then 1 else 0
    case OfTag(tag) => if f.tag == tag then 1 else 0
  }

  function Total(m: Measure, body: seq<Field>): nat {
    if body == [] then 0 else Total(m, body[..|body| - 1]) + Weight(m, body[|body| - 1])
  }

  predicate Singleton(tag: Tag) { tag in TEXT_TAGS || tag == USE_CLASS_EXCEPTIONS || tag == CLASS_EXCEPTION_INFO }

  predicate FieldsOk(o: Options, body: seq<Field>) { forall k :: 0 <= k < |body| ==> FieldOk(o, body[k]) }

  ghost predicate NoRepeats(body: seq<Field>) { forall tag: Tag :: Singleton(tag) ==> Total(OfTag(tag), body) <= 1 }

  ghost predicate Acceptable(o: Options, body: seq<Field>) {
    && FieldsOk(o, body) && NoRepeats(body)
    && Total(TextBytes, body) <= o.maxTotalText
    && Total(ControlBytes, body) <= o.maxTotalControl
    && Total(Controls, body) <= o.maxControlCount
  }

  /** The text facts by tag. */
  function Facts(body: seq<Field>): map<Tag, Text> {
    if body == [] then map[]
    else
      var f := body[|body| - 1];
      var before := Facts(body[..|body| - 1]);
      if f.tag in TEXT_TAGS && DecodeText(f.value).Some? then before[f.tag := DecodeText(f.value).value] else before
  }

  predicate NonEmpty(facts: map<Tag, Text>, tag: Tag) { tag in facts && facts[tag] != [] }

  /** The verdict on facts, the zero control, and the two class-exception controls. */
  function Classify(facts: map<Tag, Text>, zeroControl: bool, useClasses: bool, classInfo: bool): Option<Envelope> {
    if EXCEPTION_KEY in facts && facts[EXCEPTION_KEY] == [] then None
    else if RUNTIME_ID in facts && facts[RUNTIME_ID] == [] then None
    else if EXCEPTION_KEY in facts && RUNTIME_ID in facts then None
    else if classInfo && (EXCEPTION_KEY !in facts || useClasses) then None
    else if EXCEPTION_KEY in facts then Some(Envelope(AbapException, NotApplicable, facts))
    else if RUNTIME_ID in facts then Some(Envelope(AbapRuntime, NotApplicable, facts))
    else if NonEmpty(facts, ERROR_MESSAGE) || NonEmpty(facts, T100_TEXT)
            || (NonEmpty(facts, MESSAGE_CLASS) && NonEmpty(facts, MESSAGE_TYPE) && NonEmpty(facts, MESSAGE_NUMBER)) then
      Some(Envelope(AbapMessage, NotApplicable, facts))
    else if facts.Keys !! SECONDARY_TAGS then
      if zeroControl then Some(Envelope(Success, ZeroControl, facts)) else None
    else None
  }

  predicate HasZeroControl(body: seq<Field>) { Total(OfTag(UNRESOLVED), body) == 1 && Field(UNRESOLVED, [0, 0, 0, 0]) in body }

  ghost function Judge(o: Options, body: seq<Field>): Option<Envelope> {
    if Acceptable(o, body) then
      Classify(Facts(body), HasZeroControl(body), Total(OfTag(USE_CLASS_EXCEPTIONS), body) > 0, Total(OfTag(CLASS_EXCEPTION_INFO), body) > 0)
    else None
  }

  /** End stands last, once, and empty. */
  predicate EndOk(fields: seq<Field>) {
    && |fields| > 0 && fields[|fields| - 1] == Field(END, [])
    && forall k :: 0 <= k < |fields| - 1 ==> fields[k].tag != END
  }

  ghost function Verdict(o: Options, fields: seq<Field>): Option<Envelope> {
    if OptionsOk(o) && |fields| <= o.maxFieldCount && EndOk(fields) then Judge(o, fields[..|fields| - 1]) else None
  }

  // ---- the order does not matter ----

  lemma {:induction false} TotalSplit(m: Measure, a: seq<Field>, b: seq<Field>)
    ensures Total(m, a + b) == Total(m, a) + Total(m, b)
    decreases |b|
  {
    if b == [] {
      assert a + b == a;
    } else {
      var n := |b| - 1;
      assert (a + b)[..|a + b| - 1] == a + b[..n];
      TotalSplit(m, a, b[..n]);
    }
  }

  lemma TotalOne(m: Measure, f: Field)
    ensures Total(m, [f]) == Weight(m, f)
  {
    assert [f][..0] == [];
  }

  lemma WithoutOne(a: seq<Field>, b: seq<Field>, j: nat)
    requires a != [] && j < |b| && multiset(a) == multiset(b) && b[j] == a[|a| - 1]
    ensures multiset(a[..|a| - 1]) == multiset(b[..j] + b[j + 1..])
  {
    var f := b[j];
    assert a == a[..|a| - 1] + [f];
    assert b == b[..j] + [f] + b[j + 1..];
    assert multiset(a) == multiset(a[..|a| - 1]) + multiset{f};
    assert multiset(b) == multiset(b[..j]) + multiset{f} + multiset(b[j + 1..]);
    assert multiset(b[..j] + b[j + 1..]) == multiset(b) - multiset{f};
    assert multiset(a[..|a| - 1]) == multiset(a) - multiset{f};
  }

  lemma {:induction false} TotalPermuted(m: Measure, a: seq<Field>, b: seq<Field>)
    requires multiset(a) == multiset(b)
    ensures Total(m, a) == Total(m, b)
    decreases |a|
  {
    if a == [] {
      assert |multiset(b)| == 0;
    } else {
      var n := |a| - 1;
      var f := a[n];
      assert f in multiset(a);
      assert f in multiset(b);
      var j :| 0 <= j < |b| && b[j] == f;
      var rest := b[..j] + b[j + 1..];
      WithoutOne(a, b, j);
      assert b == b[..j] + [f] + b[j + 1..];
      TotalPermuted(m, a[..n], rest);
      TotalSplit(m, b[..j] + [f], b[j + 1..]);
      TotalSplit(m, b[..j], [f]);
      TotalSplit(m, b[..j], b[j + 1..]);
      TotalOne(m, f);
    }
  }

  /** A tag is counted exactly when a field carries it. */
  lemma {:induction false} CountedZero(tag: Tag, body: seq<Field>)
    ensures Total(OfTag(tag), body) > 0 <==> exists k :: 0 <= k < |body| && body[k].tag == tag
  {
    if body != [] {
      var n := |body| - 1;
      CountedZero(tag, body[..n]);
      assert forall k :: 0 <= k < n ==> body[..n][k] == body[k];
    }
  }

  /** Where no text tag repeats, a fact is the text of the one field with its tag. */
  lemma {:induction false} FactsAre(o: Options, body: seq<Field>)
    requires FieldsOk(o, body) && NoRepeats(body)
    ensures forall tag :: tag in Facts(body) ==> tag in TEXT_TAGS && exists k :: 0 <= k < |body| && body[k].tag == tag
    ensures forall k :: 0 <= k < |body| && body[k].tag in TEXT_TAGS ==>
              body[k].tag in Facts(body) && Some(Facts(body)[body[k].tag]) == DecodeText(body[k].value)
  {
    hide DecodeText, Total, NoRepeats;
    if body != [] {
      var n := |body| - 1;
      var front := body[..n];
      assert forall k :: 0 <= k < n ==> front[k] == body[k];
      NoRepeatsFront(body);
      FactsAre(o, front);
      assert FieldOk(o, body[n]);
    }
  }

  lemma NoRepeatsFront(body: seq<Field>)
    requires body != [] && NoRepeats(body)
    ensures NoRepeats(body[..|body| - 1])
    ensures body[|body| - 1].tag in TEXT_TAGS ==> forall k :: 0 <= k < |body| - 1 ==> body[k].tag != body[|body| - 1].tag
  {
    var n := |body| - 1;
    forall tag: Tag | Singleton(tag) ensures Total(OfTag(tag), body[..n]) <= 1 {
      assert Total(OfTag(tag), body) <= 1;
    }
    var tag := body[n].tag;
    if tag in TEXT_TAGS {
      assert Singleton(tag) && Total(OfTag(tag), body) <= 1;
      CountedZero(tag, body[..n]);
      assert forall k :: 0 <= k < n ==> body[..n][k] == body[k];
    }
  }

  lemma SameFields(a: seq<Field>, b: seq<Field>)
    requires multiset(a) == multiset(b)
    ensures forall f: Field :: f in a <==> f in b
    ensures |a| == |b|
  {
    assert forall f: Field :: f in a <==> f in multiset(a);
    assert forall f: Field :: f in b <==> f in multiset(b);
    assert |multiset(a)| == |a| && |multiset(b)| == |b|;
  }

  lemma AcceptablePermuted(o: Options, a: seq<Field>, b: seq<Field>)
    requires multiset(a) == multiset(b)
    ensures Acceptable(o, a) ==> Acceptable(o, b)
  {
    hide FieldOk;
    SameFields(a, b);
    forall m: Measure ensures Total(m, a) == Total(m, b) { TotalPermuted(m, a, b); }
    if FieldsOk(o, a) {
      forall k | 0 <= k < |b| ensures FieldOk(o, b[k]) {
        assert b[k] in a;
      }
    }
  }

  lemma FactsPermuted(o: Options, a: seq<Field>, b: seq<Field>)
    requires multiset(a) == multiset(b) && Acceptable(o, a)
    ensures Facts(a) == Facts(b)
  {
    hide FieldOk, Facts, DecodeText;
    AcceptablePermuted(o, a, b);
    FactsAre(o, a);
    FactsAre(o, b);
    SameFields(a, b);
    forall tag | tag in Facts(a) ensures tag in Facts(b) && Facts(a)[tag] == Facts(b)[tag] {
      var k :| 0 <= k < |a| && a[k].tag == tag;
      assert a[k] in b;
    }
    forall tag | tag in Facts(b) ensures tag in Facts(a) {
      var k :| 0 <= k < |b| && b[k].tag == tag;
      assert b[k] in a;
    }
  }

  /** Permuting the fields before End changes neither acceptance nor the outcome, the success control or any text fact. */
  lemma OrderIndependence(o: Options, a: seq<Field>, b: seq<Field>)
    requires multiset(a) == multiset(b)
    ensures Verdict(o, a + [Field(END, [])]) == Verdict(o, b + [Field(END, [])])
  {
    hide FieldsOk, Facts, Classify, OptionsOk;
    var end := [Field(END, [])];
    SameFields(a, b);
    EndOfBody(a);
    EndOfBody(b);
    AcceptablePermuted(o, a, b);
    AcceptablePermuted(o, b, a);
    if Acceptable(o, a) {
      FactsPermuted(o, a, b);
      TotalPermuted(OfTag(UNRESOLVED), a, b);
      TotalPermuted(OfTag(USE_CLASS_EXCEPTIONS), a, b);
      TotalPermuted(OfTag(CLASS_EXCEPTION_INFO), a, b);
    }
    assert (forall k :: 0 <= k < |a| ==> a[k].tag != END) ==> forall k :: 0 <= k < |b| ==> b[k].tag != END by {
      if forall k :: 0 <= k < |a| ==> a[k].tag != END {
        forall k | 0 <= k < |b| ensures b[k].tag != END { assert b[k] in a; }
      }
    }
    assert (forall k :: 0 <= k < |b| ==> b[k].tag != END) ==> forall k :: 0 <= k < |a| ==> a[k].tag != END by {
      if forall k :: 0 <= k < |b| ==> b[k].tag != END {
        forall k | 0 <= k < |a| ensures a[k].tag != END { assert a[k] in b; }
      }
    }
  }

  lemma EndOfBody(body: seq<Field>)
    ensures var fields := body + [Field(END, [])];
            && fields[..|fields| - 1] == body
            && (EndOk(fields) <==> forall k :: 0 <= k < |body| ==> body[k].tag != END)
  {
    var fields := body + [Field(END, [])];
    assert forall k :: 0 <= k < |body| ==> fields[k] == body[k];
  }

  // ---- the single pass ----

  /** What the pass accumulates. */
  datatype Tally = Tally(values: map<Tag, Text>, totalText: nat, totalControl: nat, controlCount: nat,
                         sawUseClasses: bool, sawClassInfo: bool, unresolved: seq<seq<byte>>)

  function ControlValues(body: seq<Field>): seq<seq<byte>> {
    if body == [] then []
    else
      var f := body[|body| - 1];
      ControlValues(body[..|body| - 1]) + if f.tag == UNRESOLVED then [f.value] else []
  }

  function TallyOf(body: seq<Field>): Tally {
    Tally(Facts(body), Total(TextBytes, body), Total(ControlBytes, body), Total(Controls, body),
          Total(OfTag(USE_CLASS_EXCEPTIONS), body) > 0, Total(OfTag(CLASS_EXCEPTION_INFO), body) > 0, ControlValues(body))
  }

  /** One field more: its own limits, its tag not yet there if it must be single, and the running totals. */
  predicate CanAdd(o: Options, t: Tally, f: Field) {
    && FieldOk(o, f)
    && (f.tag in TEXT_TAGS ==> f.tag !in t.values && t.totalText + |f.value| <= o.maxTotalText)
    && (IsControl(f.tag) ==> t.controlCount < o.maxControlCount && t.totalControl + |f.value| <= o.maxTotalControl)
    && (f.tag == USE_CLASS_EXCEPTIONS ==> !t.sawUseClasses)
    && (f.tag == CLASS_EXCEPTION_INFO ==> !t.sawClassInfo)
  }

  lemma TotalNext(m: Measure, body: seq<Field>, f: Field)
    ensures Total(m, body + [f]) == Total(m, body) + Weight(m, f)
  {
    assert (body + [f])[..|body|] == body;
  }

  lemma AcceptableNext(o: Options, body: seq<Field>, f: Field)
    requires Acceptable(o, body)
    ensures Acceptable(o, body + [f]) <==> CanAdd(o, TallyOf(body), f)
  {
    hide Total, FieldOk, Facts, ControlValues;
    forall m: Measure ensures Total(m, body + [f]) == Total(m, body) + Weight(m, f) { TotalNext(m, body, f); }
    assert FieldsOk(o, body + [f]) <==> FieldOk(o, f) by {
      var all := body + [f];
      assert all[|body|] == f;
      assert forall k :: 0 <= k < |body| ==> all[k] == body[k];
    }
    PresentIff(o, body, f.tag);
    if NoRepeats(body + [f]) {
      assert Singleton(f.tag) ==> Total(OfTag(f.tag), body + [f]) <= 1;
    }
  }

  lemma PresentIff(o: Options, body: seq<Field>, tag: Tag)
    requires Acceptable(o, body)
    ensures tag in TEXT_TAGS ==> (tag in Facts(body) <==> Total(OfTag(tag), body) > 0)
  {
    hide Total, FieldOk, Facts;
    FactsAre(o, body);
    CountedZero(tag, body);
  }

  lemma {:induction false} AcceptablePrefix(o: Options, body: seq<Field>, k: nat)
    requires Acceptable(o, body) && k <= |body|
    ensures Acceptable(o, body[..k])
  {
    hide FieldOk;
    forall m: Measure ensures Total(m, body[..k]) <= Total(m, body) {
      TotalSplit(m, body[..k], body[k..]);
      assert body == body[..k] + body[k..];
    }
    forall j | 0 <= j < k ensures FieldOk(o, body[..k][j]) { assert body[..k][j] == body[j]; }
  }

  lemma TallyNext(body: seq<Field>, f: Field)
    ensures var t, t' := TallyOf(body), TallyOf(body + [f]);
            t' == Tally(if f.tag in TEXT_TAGS && DecodeText(f.value).Some? then t.values[f.tag := DecodeText(f.value).value] else t.values,
                        t.totalText + Weight(TextBytes, f), t.totalControl + Weight(ControlBytes, f),
                        t.controlCount + Weight(Controls, f),
                        t.sawUseClasses || f.tag == USE_CLASS_EXCEPTIONS, t.sawClassInfo || f.tag == CLASS_EXCEPTION_INFO,
                        if f.tag == UNRESOLVED then t.unresolved + [f.value] else t.unresolved)
  {
    assert (body + [f])[..|body|] == body;
    assert ControlValues(body) + [] == ControlValues(body);
  }

  method AddField(o: Options, t: Tally, f: Field) returns (r: Option<Tally>)
    ensures r.Some? <==> CanAdd(o, t, f)
    ensures r.Some? ==>
              r.value == Tally(if f.tag in TEXT_TAGS then t.values[f.tag := DecodeText(f.value).value] else t.values,
                               t.totalText + Weight(TextBytes, f), t.totalControl + Weight(ControlBytes, f),
                               t.controlCount + Weight(Controls, f),
                               t.sawUseClasses || f.tag == USE_CLASS_EXCEPTIONS, t.sawClassInfo || f.tag == CLASS_EXCEPTION_INFO,
                               if f.tag == UNRESOLVED then t.unresolved + [f.value] else t.unresolved)
  {
    hide DecodeText;
    var tag, value := f.tag, f.value;
    if tag in TEXT_TAGS {
      if tag in t.values {
        return None;
      }
      if |value| > o.maxText {
        return None;
      }
      if t.totalText > o.maxTotalText - |value| {
        return None;
      }
      var decoded := DecodeStrictUtf16(value, o.maxText);
      if decoded.None? {
        return None;
      }
      return Some(t.(totalText := t.totalText + |value|, values := t.values[tag := decoded.value]));
    }
    if tag == UNRESOLVED || tag == USE_CLASS_EXCEPTIONS || tag == CLASS_EXCEPTION_INFO {
      if t.controlCount >= o.maxControlCount {
        return None;
      }
      if (tag == USE_CLASS_EXCEPTIONS && t.sawUseClasses) || (tag == CLASS_EXCEPTION_INFO && t.sawClassInfo) {
        return None;
      }
      if |value| > o.maxControl {
        return None;
      }
      if t.totalControl > o.maxTotalControl - |value| {
        return None;
      }
      var t' := t.(controlCount := t.controlCount + 1, totalControl := t.totalControl + |value|);
      if tag == UNRESOLVED {
        return Some(t'.(unresolved := t.unresolved + [value]));
      }
      if tag == USE_CLASS_EXCEPTIONS {
        return Some(t'.(sawUseClasses := true));
      }
      return Some(t'.(sawClassInfo := true));
    }
    if tag == 0x0423 || tag == 0x0424 {
      return None;
    }
    if tag !in CLASSIC_DATA_TAGS && tag !in o.additional {
      return None;
    }
    r := Some(t);
  }

  /** The positions of End fields, in order. */
  method EndIndices(fields: seq<Field>) returns (ends: seq<nat>)
    ensures |ends| == 1 && ends[0] == |fields| - 1 && fields[ends[0]].value == [] <==> EndOk(fields)
  {
    ends := [];
    for k := 0 to |fields|
      invariant forall i :: 0 <= i < |ends| ==> ends[i] < k && fields[ends[i]].tag == END
      invariant forall i, j :: 0 <= i < j < |ends| ==> ends[i] < ends[j]
      invariant forall i :: 0 <= i < k && fields[i].tag == END ==> i in ends
    {
      if fields[k].tag == END {
        ends := ends + [k];
      }
    }
    assert |ends| > 1 ==> ends[0] < ends[1];
    var n := |fields|;
    if EndOk(fields) {
      assert n - 1 in ends;
      assert forall i :: 0 <= i < |ends| ==> ends[i] == n - 1;
    }
  }

  /** The unresolved controls seen are one, of four zero bytes, exactly when the body has the zero control. */
  lemma {:induction false} ControlValuesAre(body: seq<Field>)
    ensures |ControlValues(body)| == Total(OfTag(UNRESOLVED), body)
    ensures forall v: seq<byte> :: v in ControlValues(body) <==> Field(UNRESOLVED, v) in body
  {
    if body != [] {
      var n := |body| - 1;
      ControlValuesAre(body[..n]);
      assert body == body[..n] + [body[n]];
    }
  }

  /** The pass decides what the body is, although it adds up totals and checks repeats one field at a time. */
  method Decode(fields: seq<Field>, o: Options) returns (r: Option<Envelope>)
    ensures r == Verdict(o, fields)
  {
    hide CanAdd, Acceptable, DecodeText, Total, Classify, EndOk, HasZeroControl;
    if !OptionsOk(o) {
      return None;
    }
    if |fields| > o.maxFieldCount {
      return None;
    }
    var ends := EndIndices(fields);
    if |ends| == 0 {
      return None;
    }
    if |ends| != 1 || ends[0] != |fields| - 1 || fields[ends[0]].value != [] {
      return None;
    }
    ghost var body := fields[..|fields| - 1];
    var t := Tally(map[], 0, 0, 0, false, false, []);
    NothingYet(o);
    for k := 0 to |fields| - 1
      invariant Acceptable(o, body[..k]) && t == TallyOf(body[..k])
    {
      var f := fields[k];
      assert body[..k + 1] == body[..k] + [f];
      AcceptableNext(o, body[..k], f);
      TallyNext(body[..k], f);
      var next := AddField(o, t, f);
      if next.None? {
        if Acceptable(o, body) { AcceptablePrefix(o, body, k + 1); }
        return None;
      }
      Decodes(o, t, f);
      t := next.value;
    }
    assert body[..|fields| - 1] == body;
    ControlValuesAre(body);
    ZeroControlIff(body, t.unresolved);
    var values := t.values;
    var zero := |t.unresolved| == 1 && t.unresolved[0] == [0, 0, 0, 0];
    r := Conclude(values, zero, t.sawUseClasses, t.sawClassInfo);
  }

  lemma NothingYet(o: Options)
    requires OptionsOk(o)
    ensures Acceptable(o, []) && TallyOf([]) == Tally(map[], 0, 0, 0, false, false, [])
  {
  }

  lemma Decodes(o: Options, t: Tally, f: Field)
    requires CanAdd(o, t, f)
    ensures f.tag in TEXT_TAGS ==> DecodeText(f.value).Some?
  {
  }

  lemma ZeroControlIff(body: seq<Field>, values: seq<seq<byte>>)
    requires values == ControlValues(body) && |values| == Total(OfTag(UNRESOLVED), body)
    requires forall v: seq<byte> :: v in values <==> Field(UNRESOLVED, v) in body
    ensures HasZeroControl(body) <==> |values| == 1 && values[0] == [0, 0, 0, 0]
  {
    var zero: seq<byte> := [0, 0, 0, 0];
    if |values| == 1 {
      assert values[0] in values;
      assert zero in values <==> values[0] == zero;
    }
  }

  /** The cascade of checks after the pass. */
  method Conclude(values: map<Tag, Text>, zero: bool, useClasses: bool, classInfo: bool) returns (r: Option<Envelope>)
    ensures r == Classify(values, zero, useClasses, classInfo)
  {
    if EXCEPTION_KEY in values && |values[EXCEPTION_KEY]| == 0 {
      return None;
    }
    if RUNTIME_ID in values && |values[RUNTIME_ID]| == 0 {
      return None;
    }
    if EXCEPTION_KEY in values && RUNTIME_ID in values {
      return None;
    }
    if classInfo && (EXCEPTION_KEY !in values || useClasses) {
      return None;
    }
    if EXCEPTION_KEY in values {
      return Some(Envelope(AbapException, NotApplicable, values));
    }
    if RUNTIME_ID in values {
      return Some(Envelope(AbapRuntime, NotApplicable, values));
    }
    if NonEmpty(values, ERROR_MESSAGE) || NonEmpty(values, T100_TEXT)
       || (NonEmpty(values, MESSAGE_CLASS) && NonEmpty(values, MESSAGE_TYPE) && NonEmpty(values, MESSAGE_NUMBER)) {
      return Some(Envelope(AbapMessage, NotApplicable, values));
    }
    if exists tag :: tag in SECONDARY_TAGS && tag in values {
      return None;
    }
    if !zero {
      return None;
    }
    r := Some(Envelope(Success, ZeroControl, values));
  }
}
