/** Parsing undoes printing: at every token boundary the reader's names are the writer's table, and
    a printed element adds exactly itself to whatever is open. */
module BxmlRoundTrip {
  import opened Bytes
  import opened BxmlFormat
  import opened BxmlDecoder
  import opened BxmlEncoder

  /** Reading on from r gives what reading on from t gives. */
  predicate Leads(doc: seq<byte>, r: Reader, t: Reader) {
    && r.i <= |doc| && |r.stack| > 0 && t.i <= |doc| && |t.stack| > 0
    && Parse(doc, r) == Parse(doc, t)
  }

  lemma OneToken(doc: seq<byte>, r: Reader, t: Reader)
    requires r.i < |doc| && |r.stack| > 0 && Token(doc, r) == Ok(t)
    ensures Leads(doc, r, t)
  {
    hide Token;
    TokenAdvances(doc, r);
  }

  lemma StringToken(doc: seq<byte>, i: nat, tok: byte, s: Text)
    requires At(doc, i, [tok] + WriteString(s)) && |s| < LENGTH_LIMIT
    ensures i < |doc| && doc[i] == tok && ReadString(doc, i + 1) == Ok((s, i + |[tok] + WriteString(s)|))
  {
    hide WriteString, ReadString;
    AtIndex(doc, i, [tok] + WriteString(s), 0);
    AtSplit(doc, i, [tok], WriteString(s));
    StringRoundTrip(doc, i + 1, s);
  }

  lemma ThreeBytes(doc: seq<byte>, i: nat, a: byte, b: byte, c: byte)
    requires At(doc, i, [a, b, c])
    ensures i + 2 < |doc| && doc[i] == a && doc[i + 1] == b && doc[i + 2] == c
  {
    AtIndex(doc, i, [a, b, c], 0);
    AtIndex(doc, i, [a, b, c], 1);
    AtIndex(doc, i, [a, b, c], 2);
  }

  /** A name reference leaves the reader with the writer's new table. */
  lemma ReferenceLeads(doc: seq<byte>, r: Reader, name: Text)
    requires At(doc, r.i, Declaration(r.names, name)) && |r.stack| > 0 && |name| < LENGTH_LIMIT
    ensures Leads(doc, r, r.(i := r.i + |Declaration(r.names, name)|, names := Declared(r.names, name)))
  {
    hide WriteString, ReadString;
    if name !in r.names {
      StringToken(doc, r.i, NAME, name);
      OneToken(doc, r, r.(i := r.i + |Declaration(r.names, name)|, names := Declared(r.names, name)));
    }
  }

  /** Within the 253 names a reference byte finds its name. */
  lemma ReferenceResolves(names: seq<Text>, name: Text)
    requires |Declared(names, name)| + NAME_REF_BIAS <= 0xff
    ensures NameByRef(Declared(names, name), RefByte(names, name)) == Ok(name)
  {
  }

  lemma OpenLeads(doc: seq<byte>, r: Reader, name: Text, space: byte, ref: byte)
    requires At(doc, r.i, [OPEN, ref, space]) && |r.stack| > 0 && NameByRef(r.names, ref) == Ok(name)
    ensures Leads(doc, r, r.(i := r.i + 3, stack := r.stack + [Bare(name)]))
  {
    ThreeBytes(doc, r.i, OPEN, ref, space);
    OneToken(doc, r, r.(i := r.i + 3, stack := r.stack + [Bare(name)]));
  }

  function AddAttrs(stack: seq<Element>, attrs: seq<Attr>): seq<Element>
    requires |stack| > 0
  {
    WithTop(stack, Top(stack).(attrs := Top(stack).attrs + attrs))
  }

  // ---- the open elements under these changes ----

  lemma TopOf(stack: seq<Element>, el: Element, to: Element)
    ensures Top(stack + [el]) == el && WithTop(stack + [el], to) == stack + [to]
  {
    assert (stack + [el])[..|stack|] == stack;
  }

  lemma AddAttrsTwice(stack: seq<Element>, a: seq<Attr>, b: seq<Attr>)
    requires |stack| > 0
    ensures AddAttrs(AddAttrs(stack, a), b) == AddAttrs(stack, a + b)
    ensures AddAttrs(stack, []) == stack
  {
    var base, top := stack[..|stack| - 1], Top(stack);
    assert stack == base + [top];
    assert top.attrs + [] == top.attrs && top.attrs + a + b == top.attrs + (a + b);
    TopOf(base, top.(attrs := top.attrs + a), top.(attrs := top.attrs + a + b));
    assert top.(attrs := top.attrs) == top;
  }

  lemma AddChildrenTwice(stack: seq<Element>, a: seq<Element>, el: Element)
    requires |stack| > 0
    ensures Attach(AddChildren(stack, a), el) == AddChildren(stack, a + [el])
    ensures AddChildren(stack, []) == stack
  {
    var base, top := stack[..|stack| - 1], Top(stack);
    assert stack == base + [top];
    assert top.children + [] == top.children && top.children + a + [el] == top.children + (a + [el]);
    TopOf(base, top.(children := top.children + a), top.(children := top.children + a + [el]));
    assert top.(children := top.children) == top;
  }

  lemma AttrTokenLeads(doc: seq<byte>, r: Reader, a: Attr, space: byte, ref: byte)
    requires At(doc, r.i, [ATTR, ref, space] + ([ATTR_VALUE] + WriteString(a.value))) && |r.stack| > 0
    requires NameByRef(r.names, ref) == Ok(a.name) && |a.value| < LENGTH_LIMIT
    ensures Leads(doc, r, r.(i := r.i + |[ATTR, ref, space] + ([ATTR_VALUE] + WriteString(a.value))|, stack := AddAttrs(r.stack, [a])))
  {
    hide WriteString, ReadString;
    AtSplit(doc, r.i, [ATTR, ref, space], [ATTR_VALUE] + WriteString(a.value));
    ThreeBytes(doc, r.i, ATTR, ref, space);
    StringToken(doc, r.i + 3, ATTR_VALUE, a.value);
    OneToken(doc, r, r.(i := r.i + |[ATTR, ref, space] + ([ATTR_VALUE] + WriteString(a.value))|, stack := AddAttrs(r.stack, [a])));
  }

  lemma AttrLeads(doc: seq<byte>, r: Reader, a: Attr)
    requires At(doc, r.i, WriteAttr(a, r.names).out) && |r.stack| > 0 && ShortAttr(a)
    requires |WriteAttr(a, r.names).names| + NAME_REF_BIAS <= 0xff
    ensures var w := WriteAttr(a, r.names);
            Leads(doc, r, Reader(r.i + |w.out|, w.names, AddAttrs(r.stack, [a])))
  {
    hide WriteString, ReadString, Parse, Declared, Declaration, RefByte, NameByRef, AddAttrs;
    var decl := Declaration(r.names, a.name);
    var rest := [ATTR, RefByte(r.names, a.name), AttrSpace(a.name)] + ([ATTR_VALUE] + WriteString(a.value));
    assert WriteAttr(a, r.names).out == decl + rest;
    AtSplit(doc, r.i, decl, rest);
    ReferenceLeads(doc, r, a.name);
    ReferenceResolves(r.names, a.name);
    AttrTokenLeads(doc, r.(i := r.i + |decl|, names := Declared(r.names, a.name)), a, AttrSpace(a.name), RefByte(r.names, a.name));
  }

  lemma {:induction false} AttrsLead(doc: seq<byte>, r: Reader, attrs: seq<Attr>)
    requires At(doc, r.i, WriteAttrs(attrs, r.names).out) && |r.stack| > 0
    requires forall k :: 0 <= k < |attrs| ==> ShortAttr(attrs[k])
    requires |WriteAttrs(attrs, r.names).names| + NAME_REF_BIAS <= 0xff
    ensures var w := WriteAttrs(attrs, r.names);
            Leads(doc, r, Reader(r.i + |w.out|, w.names, AddAttrs(r.stack, attrs)))
  {
    hide WriteAttr, Parse, AddAttrs, At;
    if attrs == [] {
      AddAttrsTwice(r.stack, [], []);
      AtStart(doc, r);
    } else {
      var n := |attrs| - 1;
      var front := WriteAttrs(attrs[..n], r.names);
      var last := WriteAttr(attrs[n], front.names);
      AtSplit(doc, r.i, front.out, last.out);
      AttrDeclaresMore(attrs[n], front.names);
      AttrsLead(doc, r, attrs[..n]);
      var mid := Reader(r.i + |front.out|, front.names, AddAttrs(r.stack, attrs[..n]));
      AttrLeads(doc, mid, attrs[n]);
      assert attrs == attrs[..n] + [attrs[n]];
      AddAttrsTwice(r.stack, attrs[..n], [attrs[n]]);
    }
  }

  lemma AttrDeclaresMore(a: Attr, names: seq<Text>)
    ensures names <= WriteAttr(a, names).names
  {
  }

  /** The content of an element as the reader sees it. */
  function Filled(el: Element, from: Element): Element {
    if from.hasBody then el.(body := from.body, hasBody := true)
    else if from.hasText then el.(text := from.text, hasText := true)
    else el
  }

  lemma ContentLeads(doc: seq<byte>, r: Reader, el: Element)
    requires At(doc, r.i, WriteContent(el)) && |r.stack| > 0
    requires |Normal(el).text| < LENGTH_LIMIT && |Normal(el).body| < LENGTH_LIMIT
    ensures Leads(doc, r, r.(i := r.i + |WriteContent(el)|, stack := WithTop(r.stack, Filled(Top(r.stack), el))))
  {
    hide WriteString, ReadString;
    var t := r.(i := r.i + |WriteContent(el)|, stack := WithTop(r.stack, Filled(Top(r.stack), el)));
    if el.hasBody {
      StringToken(doc, r.i, BODY, el.body);
      OneToken(doc, r, t);
    } else if el.hasText {
      StringToken(doc, r.i, TEXT, el.text);
      OneToken(doc, r, t);
    } else {
      assert t.stack == r.stack;
    }
  }

  lemma CloseLeads(doc: seq<byte>, r: Reader, stack: seq<Element>, el: Element)
    requires At(doc, r.i, [CLOSE]) && |stack| > 0 && r.stack == stack + [el]
    ensures Leads(doc, r, r.(i := r.i + 1, stack := Attach(stack, el)))
  {
    AtIndex(doc, r.i, [CLOSE], 0);
    assert r.stack[..|r.stack| - 1] == stack && Top(r.stack) == el;
    OneToken(doc, r, r.(i := r.i + 1, stack := Attach(stack, el)));
  }

  function AddChildren(stack: seq<Element>, els: seq<Element>): seq<Element>
    requires |stack| > 0
  {
    WithTop(stack, Top(stack).(children := Top(stack).children + els))
  }

  function Normals(els: seq<Element>): seq<Element> { seq(|els|, i requires 0 <= i < |els| => Normal(els[i])) }

  predicate Fits(names: seq<Text>) { |names| + NAME_REF_BIAS <= 0xff }

  /** The start tag with its attributes and content: a new open element holding them. */
  function Started(el: Element): Element { Filled(Bare(el.name).(attrs := el.attrs), el) }

  function WriteStart(el: Element, names: seq<Text>): Written {
    var attrs := WriteAttrs(el.attrs, Declared(names, el.name));
    Written(Declaration(names, el.name) + [OPEN, RefByte(names, el.name), NS_NONE] + attrs.out + WriteContent(el), attrs.names)
  }

  lemma StartLeads(doc: seq<byte>, r: Reader, el: Element)
    requires At(doc, r.i, WriteStart(el, r.names).out) && |r.stack| > 0
    requires Fits(WriteStart(el, r.names).names)
    requires |el.name| < LENGTH_LIMIT && |Normal(el).text| < LENGTH_LIMIT && |Normal(el).body| < LENGTH_LIMIT
    requires forall k :: 0 <= k < |el.attrs| ==> ShortAttr(el.attrs[k])
    ensures var w := WriteStart(el, r.names);
            Leads(doc, r, Reader(r.i + |w.out|, w.names, r.stack + [Started(el)]))
  {
    hide WriteString, ReadString, Parse, Declared, Declaration, RefByte, NameByRef, WriteAttrs, WriteContent, Normal, At, WithTop, Top;
    var names := Declared(r.names, el.name);
    var decl, tag := Declaration(r.names, el.name), [OPEN, RefByte(r.names, el.name), NS_NONE];
    var attrs, content := WriteAttrs(el.attrs, names), WriteContent(el);
    AtSplit(doc, r.i, decl + tag + attrs.out, content);
    AtSplit(doc, r.i, decl + tag, attrs.out);
    AtSplit(doc, r.i, decl, tag);
    ReferenceLeads(doc, r, el.name);
    AttrsDeclareMore(el.attrs, names);
    ReferenceResolves(r.names, el.name);
    var r1 := r.(i := r.i + |decl|, names := names);
    OpenLeads(doc, r1, el.name, NS_NONE, RefByte(r.names, el.name));
    var r2 := r1.(i := r1.i + 3, stack := r.stack + [Bare(el.name)]);
    AttrsLead(doc, r2, el.attrs);
    var r3 := Reader(r2.i + |attrs.out|, attrs.names, AddAttrs(r2.stack, el.attrs));
    var tagged := Bare(el.name).(attrs := el.attrs);
    TopOf(r.stack, Bare(el.name), tagged);
    assert [] + el.attrs == el.attrs;
    ContentLeads(doc, r3, el);
    TopOf(r.stack, tagged, Started(el));
  }

  /** A printed element, whatever is open and whatever follows: the reader arrives behind it with the
      writer's table and the element, normalised, added to the innermost open one. */
  lemma {:induction false} ElementLeads(doc: seq<byte>, r: Reader, el: Element)
    requires At(doc, r.i, WriteElement(el, r.names).out) && |r.stack| > 0
    requires Fits(WriteElement(el, r.names).names) && Short(Normal(el))
    ensures var w := WriteElement(el, r.names);
            Leads(doc, r, Reader(r.i + |w.out|, w.names, Attach(r.stack, Normal(el))))
    decreases el
  {
    hide WriteAttrs, Declared, Declaration, WriteContent, WriteChildren, Parse, At, RefByte;
    var start := WriteStart(el, r.names);
    var children := WriteChildren(el.children, start.names);
    assert WriteElement(el, r.names).out == start.out + children.out + [CLOSE];
    AtSplit(doc, r.i, start.out + children.out, [CLOSE]);
    AtSplit(doc, r.i, start.out, children.out);
    ChildrenDeclareMore(el.children, start.names);
    StartLeads(doc, r, el);
    var r1 := Reader(r.i + |start.out|, start.names, r.stack + [Started(el)]);
    assert Normals(el.children) == Normal(el).children;
    ChildrenLead(doc, r1, el.children);
    var r2 := Reader(r1.i + |children.out|, children.names, AddChildren(r1.stack, Normals(el.children)));
    assert [] + Normal(el).children == Normal(el).children;
    TopOf(r.stack, Started(el), Normal(el));
    CloseLeads(doc, r2, r.stack, Normal(el));
  }

  lemma {:induction false} ChildrenLead(doc: seq<byte>, r: Reader, els: seq<Element>)
    requires At(doc, r.i, WriteChildren(els, r.names).out) && |r.stack| > 0
    requires Fits(WriteChildren(els, r.names).names) && AllShort(Normals(els))
    ensures var w := WriteChildren(els, r.names);
            Leads(doc, r, Reader(r.i + |w.out|, w.names, AddChildren(r.stack, Normals(els))))
    decreases els
  {
    hide WriteElement, Parse, Short, Normal, At, AddChildren, Attach;
    if els == [] {
      assert Normals(els) == [];
      AddChildrenTwice(r.stack, [], Document());
      AtStart(doc, r);
    } else {
      var n := |els| - 1;
      var front := WriteChildren(els[..n], r.names);
      var last := WriteElement(els[n], front.names);
      AtSplit(doc, r.i, front.out, last.out);
      ElementDeclaresMore(els[n], front.names);
      assert forall k :: 0 <= k < n ==> Normals(els[..n])[k] == Normals(els)[k];
      assert Normals(els)[n] == Normal(els[n]);
      ChildrenLead(doc, r, els[..n]);
      var mid := Reader(r.i + |front.out|, front.names, AddChildren(r.stack, Normals(els[..n])));
      ElementLeads(doc, mid, els[n]);
      assert Normals(els) == Normals(els[..n]) + [Normal(els[n])];
      AddChildrenTwice(r.stack, Normals(els[..n]), Normal(els[n]));
    }
  }

  lemma AtStart(doc: seq<byte>, r: Reader)
    requires At(doc, r.i, []) && |r.stack| > 0
    ensures Leads(doc, r, r)
  {
  }

  // ---- the envelope ----

  lemma HeaderLeads(doc: seq<byte>, r: Reader, key: string, value: string)
    requires At(doc, r.i, WriteHeader(key, value)) && |r.stack| > 0 && |key| < LENGTH_LIMIT && |value| < LENGTH_LIMIT
    ensures Leads(doc, r, r.(i := r.i + |WriteHeader(key, value)|))
  {
    hide WriteString, ReadString, Ascii;
    var k, v := Ascii(key), Ascii(value);
    AsciiLength(key);
    AsciiLength(value);
    assert WriteHeader(key, value) == [HEADER] + WriteString(k) + WriteString(v);
    AtSplit(doc, r.i, [HEADER] + WriteString(k), WriteString(v));
    StringToken(doc, r.i, HEADER, k);
    StringRoundTrip(doc, r.i + |[HEADER] + WriteString(k)|, v);
    OneToken(doc, r, r.(i := r.i + |WriteHeader(key, value)|));
  }

  lemma AsciiLength(s: string)
    ensures |Ascii(s)| == |s|
  {
  }

  lemma DeclareLeads(doc: seq<byte>, r: Reader, name: Text)
    requires At(doc, r.i, Declare(name)) && |r.stack| > 0 && |name| < LENGTH_LIMIT
    ensures Leads(doc, r, r.(i := r.i + |Declare(name)|, names := r.names + [name]))
  {
    hide WriteString, ReadString;
    StringToken(doc, r.i, NAME, name);
    OneToken(doc, r, r.(i := r.i + |Declare(name)|, names := r.names + [name]));
  }

  lemma BindLeads(doc: seq<byte>, r: Reader, a: byte, b: byte)
    requires |r.stack| > 0
    ensures At(doc, r.i, [BIND, a, b]) ==> Leads(doc, r, r.(i := r.i + 3))
    ensures At(doc, r.i, [XMLNS, a]) ==> Leads(doc, r, r.(i := r.i + 2))
  {
    if At(doc, r.i, [BIND, a, b]) {
      ThreeBytes(doc, r.i, BIND, a, b);
      OneToken(doc, r, r.(i := r.i + 3));
    }
    if At(doc, r.i, [XMLNS, a]) {
      AtIndex(doc, r.i, [XMLNS, a], 0);
      OneToken(doc, r, r.(i := r.i + 2));
    }
  }

  lemma PrologueLeads(doc: seq<byte>)
    requires At(doc, 0, Prologue())
    ensures At(doc, 0, MAGIC())
    ensures Leads(doc, Reader(|MAGIC()|, [], [Document()]), Reader(|Prologue()|, EnvelopeNames()[..2], [Document()]))
  {
    hide WriteString, ReadString, Ascii, Parse, At, Declare, WriteHeader;
    EnvelopeNamesDistinct();
    var m, v, e, bind := MAGIC(), WriteHeader("VER", "0.7"), WriteHeader("ENC", "utf-8"), [BIND, 2, 3];
    var a, u := Declare(ASX), Declare(ASX_URL);
    AtSplit(doc, 0, m + v + e + a + u, bind);
    AtSplit(doc, 0, m + v + e + a, u);
    AtSplit(doc, 0, m + v + e, a);
    AtSplit(doc, 0, m + v, e);
    AtSplit(doc, 0, m, v);
    var stack := [Document()];
    HeaderLeads(doc, Reader(|m|, [], stack), "VER", "0.7");
    HeaderLeads(doc, Reader(|m + v|, [], stack), "ENC", "utf-8");
    DeclareLeads(doc, Reader(|m + v + e|, [], stack), ASX);
    DeclareLeads(doc, Reader(|m + v + e + a|, [ASX], stack), ASX_URL);
    assert [] + [ASX] == [ASX] && [ASX] + [ASX_URL] == EnvelopeNames()[..2];
    BindLeads(doc, Reader(|m + v + e + a + u|, [ASX] + [ASX_URL], stack), 2, 3);
  }

  function AbapElement(): Element { Bare(ABAP).(attrs := [Attr(VERSION, ONE_ZERO)]) }

  lemma AbapLeads(doc: seq<byte>, i: nat)
    requires At(doc, i, AbapStart())
    ensures Leads(doc, Reader(i, EnvelopeNames()[..2], [Document()]),
                  Reader(i + |AbapStart()|, EnvelopeNames()[..4], [Document(), AbapElement()]))
  {
    hide WriteString, ReadString, Ascii, Parse, At, Declare;
    EnvelopeNamesDistinct();
    AsciiLength("1.0");
    var a, v, open := Declare(ABAP), Declare(VERSION), [OPEN, 4, NS_ASX];
    var attr, value := [ATTR, 5, NS_NONE], [ATTR_VALUE] + WriteString(ONE_ZERO);
    assert AbapStart() == a + open + v + (attr + value);
    AtSplit(doc, i, a + open + v, attr + value);
    AtSplit(doc, i, a + open, v);
    AtSplit(doc, i, a, open);
    var names := [ASX, ASX_URL];
    DeclareLeads(doc, Reader(i, names, [Document()]), ABAP);
    OpenLeads(doc, Reader(i + |a|, names + [ABAP], [Document()]), ABAP, NS_ASX, 4);
    var stack := [Document()] + [Bare(ABAP)];
    DeclareLeads(doc, Reader(i + |a + open|, names + [ABAP], stack), VERSION);
    AttrTokenLeads(doc, Reader(i + |a + open + v|, names + [ABAP] + [VERSION], stack), Attr(VERSION, ONE_ZERO), NS_NONE, 5);
    TopOf([Document()], Bare(ABAP), AbapElement());
    assert names == EnvelopeNames()[..2] && names + [ABAP] + [VERSION] == EnvelopeNames()[..4];
    assert [] + [Attr(VERSION, ONE_ZERO)] == [Attr(VERSION, ONE_ZERO)];
    assert [Document()] + [AbapElement()] == [Document(), AbapElement()];
  }

  lemma ValuesLeads(doc: seq<byte>, i: nat)
    requires At(doc, i, Hints() + ValuesStart())
    ensures Leads(doc, Reader(i, EnvelopeNames()[..4], [Document(), AbapElement()]),
                  Reader(i + |Hints() + ValuesStart()|, EnvelopeNames(), [Document(), AbapElement(), Bare(VALUES)]))
  {
    hide WriteString, ReadString, Ascii, Parse, At, Declare, AbapElement, Document;
    EnvelopeNamesDistinct();
    var h, u, v := Declare(HINT), Declare(HINT_URL), Declare(VALUES);
    var bind, xmlns, open := [BIND, 6, 7], [XMLNS, 3], [OPEN, 8, NS_ASX];
    AtSplit(doc, i, Hints(), ValuesStart());
    AtSplit(doc, i + |Hints()|, v, open);
    AtSplit(doc, i, h + u + bind, xmlns);
    AtSplit(doc, i, h + u, bind);
    AtSplit(doc, i, h, u);
    var names, stack := EnvelopeNames()[..4], [Document(), AbapElement()];
    DeclareLeads(doc, Reader(i, names, stack), HINT);
    DeclareLeads(doc, Reader(i + |h|, names + [HINT], stack), HINT_URL);
    BindLeads(doc, Reader(i + |h + u|, names + [HINT] + [HINT_URL], stack), 6, 7);
    BindLeads(doc, Reader(i + |h + u + bind|, names + [HINT] + [HINT_URL], stack), 3, 0);
    DeclareLeads(doc, Reader(i + |Hints()|, names + [HINT] + [HINT_URL], stack), VALUES);
    var all := names + [HINT] + [HINT_URL] + [VALUES];
    assert all == EnvelopeNames();
    OpenLeads(doc, Reader(i + |Hints() + v|, all, stack), VALUES, NS_ASX, 8);
    assert stack + [Bare(VALUES)] == [Document(), AbapElement(), Bare(VALUES)];
  }

  // ---- the document ----

  function Reparsed(bytes: seq<byte>): Result<Element> {
    match DecodeDocument(bytes)
    case Malformed => Malformed
    case Ok(document) => PayloadRoot(document)
  }

  /** The document around a payload. */
  function Around(payload: Element): Element {
    Document().(children := [AbapElement().(children := [Bare(VALUES).(children := [payload])])])
  }

  lemma PayloadOfAround(payload: Element)
    ensures PayloadRoot(Around(payload)) == Ok(payload)
  {
    var values := Bare(VALUES).(children := [payload]);
    var abap := AbapElement().(children := [values]);
    assert FirstNamed([abap], Ascii("abap")) == Some(abap);
    assert FirstNamed([values], Ascii("values")) == Some(values);
  }

  lemma EnvelopeLeads(doc: seq<byte>)
    requires At(doc, 0, Envelope())
    ensures At(doc, 0, MAGIC())
    ensures Leads(doc, Reader(|MAGIC()|, [], [Document()]),
                  Reader(|Envelope()|, EnvelopeNames(), [Document(), AbapElement(), Bare(VALUES)]))
  {
    hide Prologue, AbapStart, Hints, ValuesStart, At, Parse, EnvelopeNames, Ascii;
    var p, a, h := Prologue(), AbapStart(), Hints() + ValuesStart();
    assert Envelope() == p + a + h;
    AtSplit(doc, 0, p + a, h);
    AtSplit(doc, 0, p, a);
    PrologueLeads(doc);
    AbapLeads(doc, |p|);
    ValuesLeads(doc, |p + a|);
  }

  lemma CloseValues(doc: seq<byte>, i: nat, names: seq<Text>, payload: Element)
    requires At(doc, i, [CLOSE])
    ensures Leads(doc, Reader(i, names, Attach([Document(), AbapElement(), Bare(VALUES)], payload)),
                  Reader(i + 1, names, [Document()] + [AbapElement().(children := [Bare(VALUES).(children := [payload])])]))
  {
    hide Parse, Token, Document, AbapElement, Top, WithTop, At;
    var d, a, v := Document(), AbapElement(), Bare(VALUES);
    var v' := v.(children := [payload]);
    assert [d, a, v] == [d, a] + [v] && [d, a] == [d] + [a];
    assert [] + [payload] == [payload] && [] + [v'] == [v'];
    TopOf([d, a], v, v');
    CloseLeads(doc, Reader(i, names, [d, a] + [v']), [d, a], v');
    NoChildrenYet();
    TopOf([d], a, a.(children := [v']));
  }

  lemma TailLeads(doc: seq<byte>, i: nat, names: seq<Text>, payload: Element)
    requires At(doc, i, [CLOSE, CLOSE]) && i + 2 == |doc|
    ensures Parse(doc, Reader(i, names, Attach([Document(), AbapElement(), Bare(VALUES)], payload))) == Ok(Around(payload))
  {
    hide Parse, Token, Document, AbapElement, Top, WithTop, At;
    assert [CLOSE] + [CLOSE] == [CLOSE, CLOSE];
    AtSplit(doc, i, [CLOSE], [CLOSE]);
    CloseValues(doc, i, names, payload);
    var d, a' := Document(), AbapElement().(children := [Bare(VALUES).(children := [payload])]);
    NoChildrenYet();
    CloseLeads(doc, Reader(i + 1, names, [d] + [a']), [d], a');
    var d' := d.(children := [a']);
    assert [] + [a'] == [a'];
    TopOf([], d, d');
    assert [] + [d'] == [d'] && [] + [d] == [d];
    AtEnd(doc, Reader(i + 2, names, [d']));
  }

  lemma NoChildrenYet()
    ensures Document().children == [] && AbapElement().children == []
  {
  }

  lemma AtEnd(doc: seq<byte>, r: Reader)
    requires r.i == |doc| && |r.stack| == 1
    ensures Parse(doc, r) == Ok(r.stack[0])
  {
  }

  /** Short trees come back normalised. */
  lemma ShortComesBack(root: Element)
    requires EncodeDocument(root).Ok? && Short(Normal(root))
    ensures DecodeDocument(EncodeDocument(root).value) == Ok(Around(Normal(root)))
  {
    hide Parse, Token, Document, AbapElement, Envelope, WriteElement, EnvelopeNames, Short, Ascii, Attach;
    var w := WriteElement(root, EnvelopeNames());
    var doc := EncodeDocument(root).value;
    assert doc == Envelope() + w.out + [CLOSE, CLOSE];
    assert At(doc, 0, Envelope() + w.out + [CLOSE, CLOSE]);
    AtSplit(doc, 0, Envelope() + w.out, [CLOSE, CLOSE]);
    AtSplit(doc, 0, Envelope(), w.out);
    EnvelopeLeads(doc);
    var stack := [Document(), AbapElement(), Bare(VALUES)];
    ElementLeads(doc, Reader(|Envelope()|, EnvelopeNames(), stack), root);
    TailLeads(doc, |Envelope() + w.out|, w.names, Normal(root));
  }

  lemma ShortPayload(document: Element)
    requires Short(document) && PayloadRoot(document).Ok?
    ensures Short(PayloadRoot(document).value)
  {
    hide Ascii;
    var abap := NamedOrFirst(Some(document), Ascii("abap"));
    var values := NamedOrFirst(abap, Ascii("values"));
    assert Short(abap.value);
    assert Short(values.value);
  }

  /** Whatever Encode accepts is parsed back, normalised, exactly when no string it wrote reaches the length limit. */
  lemma RoundTripIff(root: Element)
    requires EncodeDocument(root).Ok?
    ensures Reparsed(EncodeDocument(root).value) == Ok(Normal(root)) <==> Short(Normal(root))
  {
    hide EncodeDocument, DecodeDocument, Short, PayloadRoot, Normal;
    var doc := EncodeDocument(root).value;
    if Short(Normal(root)) {
      ShortComesBack(root);
      PayloadOfAround(Normal(root));
    } else {
      DecodedIsShort(doc);
      if DecodeDocument(doc).Ok? && PayloadRoot(DecodeDocument(doc).value).Ok? {
        ShortPayload(DecodeDocument(doc).value);
      }
    }
  }

  /** An element with nothing but that text. */
  function TextOnly(text: Text): Element { Element(Ascii("DATA"), [], [], text, true, [], false) }

  lemma TextOnlyFits(text: Text)
    ensures EncodeDocument(TextOnly(text)).Ok?
  {
    hide WriteString, Ascii, Envelope;
    var el, names := TextOnly(text), Declared(EnvelopeNames(), Ascii("DATA"));
    assert WriteAttrs([], names) == Written([], names) && WriteChildren([], names) == Written([], names);
    assert WriteElement(el, EnvelopeNames()).names == names;
  }

  lemma TextOnlyNormal(text: Text)
    ensures Normal(TextOnly(text)) == TextOnly(text)
  {
    assert Normal(TextOnly(text)).children == [];
  }

  /** A text of 0x200000 letters is printed, but what is parsed back is something else. */
  lemma LongTextIsLost()
    ensures var root := TextOnly(seq(LENGTH_LIMIT, _ => 0x41));
            EncodeDocument(root).Ok? && Reparsed(EncodeDocument(root).value) != Ok(Normal(root))
  {
    hide EncodeDocument, Reparsed, Normal;
    var text: Text := seq(LENGTH_LIMIT, _ => 0x41);
    assert |text| == LENGTH_LIMIT;
    TextOnlyFits(text);
    TextOnlyNormal(text);
    RoundTripIff(TextOnly(text));
  }
}
