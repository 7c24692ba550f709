/** The binary XML printer, which declares each name the first time it needs it. */
module BxmlEncoder {
  import opened Bytes
  import opened BxmlFormat

  // ---- the name table as the list of declarations written so far ----

  function RefIndex(names: seq<Text>, name: Text): (i: nat)
    ensures i <= |names| && (i < |names| <==> name in names) && (i < |names| ==> names[i] == name)
  {
    if names == [] then 0 else if names[0] == name then 0 else 1 + RefIndex(names[1..], name)
  }

  function Declared(names: seq<Text>, name: Text): (r: seq<Text>)
    ensures names <= r && RefIndex(names, name) < |r| && r[RefIndex(names, name)] == name
  {
    if name in names then names else names + [name]
  }

  function Declaration(names: seq<Text>, name: Text): seq<byte> {
    if name in names then [] else [NAME] + WriteString(name)
  }

  /** The one-byte reference: the low byte of the index plus the bias. */
  function RefByte(names: seq<Text>, name: Text): byte { (RefIndex(names, name) + NAME_REF_BIAS) % 256 }

  // ---- what is written, and the names declared after it ----

  datatype Written = Written(out: seq<byte>, names: seq<Text>)

  const NS_NONE: byte := 1
  const NS_ASX: byte := 2
  const NS_ASX_URL: byte := 3

  function AttrSpace(name: Text): byte { if name == Ascii("lines") then NS_ASX_URL else NS_NONE }

  function WriteAttr(a: Attr, names: seq<Text>): Written {
    Written(Declaration(names, a.name) + [ATTR, RefByte(names, a.name), AttrSpace(a.name)] + ([ATTR_VALUE] + WriteString(a.value)),
            Declared(names, a.name))
  }

  function WriteAttrs(attrs: seq<Attr>, names: seq<Text>): Written {
    if attrs == [] then Written([], names)
    else
      var front := WriteAttrs(attrs[..|attrs| - 1], names);
      var last := WriteAttr(attrs[|attrs| - 1], front.names);
      Written(front.out + last.out, last.names)
  }

  function WriteContent(el: Element): seq<byte> {
    if el.hasBody then [BODY] + WriteString(el.body)
    else if el.hasText then [TEXT] + WriteString(el.text)
    else []
  }

  function WriteElement(el: Element, names: seq<Text>): Written
    decreases el
  {
    var attrs := WriteAttrs(el.attrs, Declared(names, el.name));
    var children := WriteChildren(el.children, attrs.names);
    Written(Declaration(names, el.name) + [OPEN, RefByte(names, el.name), NS_NONE] + attrs.out + WriteContent(el)
            + children.out + [CLOSE], children.names)
  }

  function WriteChildren(children: seq<Element>, names: seq<Text>): Written
    decreases children
  {
    if children == [] then Written([], names)
    else
      var front := WriteChildren(children[..|children| - 1], names);
      var last := WriteElement(children[|children| - 1], front.names);
      Written(front.out + last.out, last.names)
  }

  function WriteHeader(key: string, value: string): seq<byte> {
    [HEADER] + WriteString(Ascii(key)) + WriteString(Ascii(value))
  }

  const ASX := Ascii("asx")
  const ASX_URL := Ascii("http://www.sap.com/abapxml")
  const ABAP := Ascii("abap")
  const VERSION := Ascii("version")
  const HINT := Ascii("asxhint")
  const HINT_URL := Ascii("http://www.sap.com/abapxml/hint")
  const VALUES := Ascii("values")
  const ONE_ZERO := Ascii("1.0")

  /** The names the envelope declares, in order; their references are 2 to 8. */
  function EnvelopeNames(): seq<Text> { [ASX, ASX_URL, ABAP, VERSION, HINT, HINT_URL, VALUES] }

  function Declare(name: Text): seq<byte> { [NAME] + WriteString(name) }

  function Prologue(): seq<byte> {
    Ascii("BXML") + WriteHeader("VER", "0.7") + WriteHeader("ENC", "utf-8")
    + Declare(ASX) + Declare(ASX_URL) + [BIND, 2, 3]
  }

  function AbapStart(): seq<byte> {
    Declare(ABAP) + [OPEN, 4, NS_ASX]
    + Declare(VERSION) + [ATTR, 5, NS_NONE] + ([ATTR_VALUE] + WriteString(ONE_ZERO))
  }

  function Hints(): seq<byte> { Declare(HINT) + Declare(HINT_URL) + [BIND, 6, 7] + [XMLNS, 3] }

  function ValuesStart(): seq<byte> { Declare(VALUES) + [OPEN, 8, NS_ASX] }

  function Envelope(): seq<byte> { Prologue() + AbapStart() + Hints() + ValuesStart() }

  /** Ok exactly when every reference fits its byte. */
  function EncodeDocument(root: Element): Result<seq<byte>> {
    var w := WriteElement(root, EnvelopeNames());
    if |w.names| + NAME_REF_BIAS > 0xff then Malformed else Ok(Envelope() + w.out + [CLOSE, CLOSE])
  }

  lemma {:induction false} AttrsDeclareMore(attrs: seq<Attr>, names: seq<Text>)
    ensures names <= WriteAttrs(attrs, names).names
  {
    if attrs != [] { AttrsDeclareMore(attrs[..|attrs| - 1], names); }
  }

  lemma {:induction false} ElementDeclaresMore(el: Element, names: seq<Text>)
    ensures Declared(names, el.name) <= WriteElement(el, names).names && names <= WriteElement(el, names).names
    ensures WriteAttrs(el.attrs, Declared(names, el.name)).names <= WriteElement(el, names).names
    decreases el
  {
    AttrsDeclareMore(el.attrs, Declared(names, el.name));
    ChildrenDeclareMore(el.children, WriteAttrs(el.attrs, Declared(names, el.name)).names);
  }

  lemma {:induction false} ChildrenDeclareMore(children: seq<Element>, names: seq<Text>)
    ensures names <= WriteChildren(children, names).names
    decreases children
  {
    if children != [] {
      var front := WriteChildren(children[..|children| - 1], names);
      ChildrenDeclareMore(children[..|children| - 1], names);
      ElementDeclaresMore(children[|children| - 1], front.names);
    }
  }

  // ---- the printer itself ----

  class Encoder {
    var out: seq<byte>
    var names: map<Text, nat>
    var count: nat
    /** The list a reader has built from the declarations in out. */
    ghost var table: seq<Text>

    /** The name map and the reader's list agree. */
    ghost predicate Valid()
      reads this`names, this`count, this`table
    {
      && count == |table|
      && (forall i :: 0 <= i < |table| ==> table[i] in names && names[table[i]] == i)
      && (forall n :: n in names ==> names[n] < |table| && table[names[n]] == n)
    }

    constructor ()
      ensures Valid() && out == [] && table == []
    {
      out, names, count, table := [], map[], 0, [];
    }

    method Ref(name: Text) returns (ref: nat)
      requires Valid()
      modifies this
      ensures Valid() && table == Declared(old(table), name)
      ensures out == old(out) + Declaration(old(table), name)
      ensures ref == RefIndex(old(table), name) + NAME_REF_BIAS
    {
      hide WriteString;
      if name in names {
        assert names[table[RefIndex(table, name)]] == RefIndex(table, name);
        return names[name] + NAME_REF_BIAS;
      }
      var idx := count;
      count := count + 1;
      names := names[name := idx];
      table := table + [name];
      out := out + [NAME];
      out := out + WriteString(name);
      ref := idx + NAME_REF_BIAS;
    }

    method Header(key: string, value: string)
      modifies this`out
      ensures out == old(out) + WriteHeader(key, value)
    {
      hide WriteString, Ascii;
      out := out + [HEADER];
      out := out + WriteString(Ascii(key));
      out := out + WriteString(Ascii(value));
    }

    method Str(tok: byte, s: Text)
      modifies this`out
      ensures out == old(out) + ([tok] + WriteString(s))
    {
      hide WriteString;
      out := out + [tok];
      out := out + WriteString(s);
    }

    method Attribute(a: Attr)
      requires Valid()
      modifies this
      ensures Valid() && var w := WriteAttr(a, old(table)); out == old(out) + w.out && table == w.names
    {
      hide WriteString, Ascii;
      var ref := Ref(a.name);
      out := out + [ATTR, ref % 256, AttrSpace(a.name)];
      Str(ATTR_VALUE, a.value);
    }

    method Attributes(attrs: seq<Attr>)
      requires Valid()
      modifies this
      ensures Valid() && var w := WriteAttrs(attrs, old(table)); out == old(out) + w.out && table == w.names
    {
      hide Valid, WriteAttr;
      for k := 0 to |attrs|
        invariant Valid()
        invariant var w := WriteAttrs(attrs[..k], old(table)); out == old(out) + w.out && table == w.names
      {
        assert attrs[..k + 1][..k] == attrs[..k];
        Attribute(attrs[k]);
      }
      assert attrs[..|attrs|] == attrs;
    }

    method Content(el: Element)
      modifies this`out
      ensures out == old(out) + WriteContent(el)
    {
      hide WriteString;
      if el.hasBody {
        Str(BODY, el.body);
      } else if el.hasText {
        Str(TEXT, el.text);
      }
    }

    method Children(children: seq<Element>)
      requires Valid()
      modifies this
      ensures Valid() && var w := WriteChildren(children, old(table)); out == old(out) + w.out && table == w.names
      decreases children
    {
      hide Valid, WriteElement;
      for k := 0 to |children|
        invariant Valid()
        invariant var w := WriteChildren(children[..k], old(table)); out == old(out) + w.out && table == w.names
      {
        assert children[..k + 1][..k] == children[..k];
        Elem(children[k]);
      }
      assert children[..|children|] == children;
    }

    method Elem(el: Element)
      requires Valid()
      modifies this
      ensures Valid() && var w := WriteElement(el, old(table)); out == old(out) + w.out && table == w.names
      decreases el
    {
      hide WriteString, Valid, Declaration, Declared, WriteAttrs, WriteContent, WriteChildren, RefIndex;
      var ref := Ref(el.name);
      out := out + [OPEN, ref % 256, NS_NONE];
      Attributes(el.attrs);
      Content(el);
      Children(el.children);
      out := out + [CLOSE];
    }
  }

  method WritePrologue() returns (e: Encoder, asx: nat, asxUrl: nat)
    ensures fresh(e) && e.Valid() && e.out == Prologue() && e.table == EnvelopeNames()[..2] && asxUrl == 3
  {
    hide WriteString, Ascii, Declared, Declaration, RefIndex, Declare, WriteHeader;
    e := new Encoder();
    e.out := e.out + Ascii("BXML");
    e.Header("VER", "0.7");
    e.Header("ENC", "utf-8");
    NextName(0);
    asx := e.Ref(ASX);
    NextName(1);
    asxUrl := e.Ref(ASX_URL);
    e.out := e.out + [BIND, asx % 256, asxUrl % 256];
  }

  method StartAbap(e: Encoder)
    requires e.Valid() && e.table == EnvelopeNames()[..2]
    modifies e
    ensures e.Valid() && e.out == old(e.out) + AbapStart() && e.table == EnvelopeNames()[..4]
  {
    hide WriteString, Ascii, Declared, Declaration, RefIndex, Declare;
    NextName(2);
    var abap := e.Ref(ABAP);
    e.out := e.out + [OPEN, abap % 256, NS_ASX];
    NextName(3);
    var version := e.Ref(VERSION);
    e.out := e.out + [ATTR, version % 256, NS_NONE];
    e.Str(ATTR_VALUE, ONE_ZERO);
  }

  method WriteHints(e: Encoder, asxUrl: nat)
    requires e.Valid() && e.table == EnvelopeNames()[..4] && asxUrl == 3
    modifies e
    ensures e.Valid() && e.out == old(e.out) + Hints() && e.table == EnvelopeNames()[..6]
  {
    hide WriteString, Ascii, Declared, Declaration, RefIndex, Declare;
    NextName(4);
    var hint := e.Ref(HINT);
    NextName(5);
    var hintUrl := e.Ref(HINT_URL);
    e.out := e.out + [BIND, hint % 256, hintUrl % 256];
    e.out := e.out + [XMLNS, asxUrl % 256];
  }

  method StartValues(e: Encoder)
    requires e.Valid() && e.table == EnvelopeNames()[..6]
    modifies e
    ensures e.Valid() && e.out == old(e.out) + ValuesStart() && e.table == EnvelopeNames()
  {
    hide WriteString, Ascii, Declared, Declaration, RefIndex, Declare;
    NextName(6);
    var values := e.Ref(VALUES);
    e.out := e.out + [OPEN, values % 256, NS_ASX];
  }

  /** Everything before the payload root. */
  method WriteEnvelope() returns (e: Encoder)
    ensures fresh(e) && e.Valid() && e.out == Envelope() && e.table == EnvelopeNames()
  {
    hide Prologue, AbapStart, Hints, ValuesStart;
    var asx, asxUrl;
    e, asx, asxUrl := WritePrologue();
    StartAbap(e);
    WriteHints(e, asxUrl);
    StartValues(e);
  }

  /** Each envelope name is new when it is referred to. */
  lemma NextName(k: nat)
    requires k < 7
    ensures var (before, name) := (EnvelopeNames()[..k], EnvelopeNames()[k]);
            && Declared(before, name) == EnvelopeNames()[..k + 1]
            && Declaration(before, name) == Declare(name)
            && RefIndex(before, name) == k
  {
    EnvelopeNamesDistinct();
    var names := EnvelopeNames();
    assert names[k] !in names[..k];
    assert names[..k + 1] == names[..k] + [names[k]];
  }

  lemma EnvelopeNamesDistinct()
    ensures |ASX| == 3 && |ASX_URL| == 26 && |ABAP| == 4 && |VERSION| == 7 && |HINT| == 7 && |HINT_URL| == 31 && |VALUES| == 6
    ensures VERSION != HINT
  {
    assert VERSION[0] != HINT[0];
  }

  method Encode(root: Element) returns (result: Result<seq<byte>>)
    ensures result == EncodeDocument(root)
  {
    hide Envelope, WriteElement;
    var e := WriteEnvelope();
    e.Elem(root);
    e.out := e.out + [CLOSE, CLOSE];
    if e.count + NAME_REF_BIAS > 0xff {
      return Malformed;
    }
    result := Ok(e.out);
  }
}
