/** The binary XML parser: a token loop over a growing name list and a stack of open elements. */
module BxmlDecoder {
  import opened Bytes
  import opened BxmlFormat

  /** Reading position, declared names and open elements, outermost first. An element joins its
      parent's children when it is closed. */
  datatype Reader = Reader(i: nat, names: seq<Text>, stack: seq<Element>)

  function MAGIC(): seq<byte> { Ascii("BXML") }

  function Top(stack: seq<Element>): Element
    requires |stack| > 0
  {
    stack[|stack| - 1]
  }

  function WithTop(stack: seq<Element>, el: Element): seq<Element>
    requires |stack| > 0
  {
    stack[..|stack| - 1] + [el]
  }

  /** A finished element becomes the last child of the innermost open one. */
  function Attach(stack: seq<Element>, el: Element): seq<Element>
    requires |stack| > 0
  {
    WithTop(stack, Top(stack).(children := Top(stack).children + [el]))
  }

  function NameByRef(names: seq<Text>, ref: byte): Result<Text> {
    if 0 <= ref - NAME_REF_BIAS < |names| then Ok(names[ref - NAME_REF_BIAS]) else Malformed
  }

  /** A string operand followed by a change to the reader. */
  function Skip(doc: seq<byte>, r: Reader, at: nat): Result<Reader> {
    match ReadString(doc, at)
    case Malformed => Malformed
    case Ok((_, j)) => Ok(r.(i := j))
  }

  function Token(doc: seq<byte>, r: Reader): Result<Reader>
    requires r.i < |doc| && |r.stack| > 0
  {
    var i := r.i;
    var tok := doc[i];
    if tok == HEADER then
      match ReadString(doc, i + 1)
      case Malformed => Malformed
      case Ok((_, j)) => Skip(doc, r, j)
    else if tok == NAME then
      match ReadString(doc, i + 1)
      case Malformed => Malformed
      case Ok((s, j)) => Ok(r.(i := j, names := r.names + [s]))
    else if tok == OPEN then
      if i + 2 >= |doc| then Malformed
      else
        match NameByRef(r.names, doc[i + 1])
        case Malformed => Malformed
        case Ok(name) => Ok(r.(i := i + 3, stack := r.stack + [Bare(name)]))
    else if tok == CLOSE then
      if |r.stack| <= 1 then Malformed
      else Ok(r.(i := i + 1, stack := Attach(r.stack[..|r.stack| - 1], Top(r.stack))))
    else if tok == ATTR then
      if i + 2 >= |doc| then Malformed
      else
        match NameByRef(r.names, doc[i + 1])
        case Malformed => Malformed
        case Ok(name) =>
          if i + 3 >= |doc| || doc[i + 3] != ATTR_VALUE then Malformed
          else
            match ReadString(doc, i + 4)
            case Malformed => Malformed
            case Ok((v, j)) =>
              Ok(r.(i := j, stack := WithTop(r.stack, Top(r.stack).(attrs := Top(r.stack).attrs + [Attr(name, v)]))))
    else if tok == ATTR_VALUE then Skip(doc, r, i + 1)
    else if tok == BIND then
      if i + 2 >= |doc| then Malformed else Ok(r.(i := i + 3))
    else if tok == XMLNS then
      if i + 1 >= |doc| then Malformed else Ok(r.(i := i + 2))
    else if tok == TEXT || tok == STRING then
      match ReadString(doc, i + 1)
      case Malformed => Malformed
      case Ok((s, j)) => Ok(r.(i := j, stack := WithTop(r.stack, Top(r.stack).(text := s, hasText := true))))
    else if tok == BODY then
      match ReadString(doc, i + 1)
      case Malformed => Malformed
      case Ok((s, j)) => Ok(r.(i := j, stack := WithTop(r.stack, Top(r.stack).(body := s, hasBody := true))))
    else Malformed
  }

  lemma TokenAdvances(doc: seq<byte>, r: Reader)
    requires r.i < |doc| && |r.stack| > 0
    ensures Token(doc, r).Ok? ==> r.i < Token(doc, r).value.i <= |doc| && |Token(doc, r).value.stack| > 0
  {
  }

  function Parse(doc: seq<byte>, r: Reader): Result<Element>
    requires r.i <= |doc| && |r.stack| > 0
    decreases |doc| - r.i
  {
    if r.i >= |doc| then
      if |r.stack| == 1 then Ok(r.stack[0]) else Malformed
    else
      TokenAdvances(doc, r);
      match Token(doc, r)
      case Malformed => Malformed
      case Ok(r') => Parse(doc, r')
  }

  function Document(): Element { Bare(Ascii("#document")) }

  function DecodeDocument(doc: seq<byte>): Result<Element> {
    if MAGIC() <= doc then Parse(doc, Reader(|MAGIC()|, [], [Document()])) else Malformed
  }

  /** The parser: the token loop computes the document. */
  method Decode(doc: seq<byte>) returns (result: Result<Element>)
    ensures result == DecodeDocument(doc)
  {
    hide ReadString, Ascii;
    if !(MAGIC() <= doc) {
      return Malformed;
    }
    var i: nat := |MAGIC()|;
    var names: seq<Text> := [];
    var stack := [Document()];
    while i < |doc|
      invariant i <= |doc| && |stack| > 0
      invariant DecodeDocument(doc) == Parse(doc, Reader(i, names, stack))
      decreases |doc| - i
    {
      var tok := doc[i];
      var n := |stack| - 1;
      ghost var before := Reader(i, names, stack);
      TokenAdvances(doc, before);
      if tok == HEADER {
        var key := ReadString(doc, i + 1);
        if key.Malformed? {
          return Malformed;
        }
        var value := ReadString(doc, key.value.1);
        if value.Malformed? {
          return Malformed;
        }
        i := value.value.1;
      } else if tok == NAME {
        var s := ReadString(doc, i + 1);
        if s.Malformed? {
          return Malformed;
        }
        names, i := names + [s.value.0], s.value.1;
      } else if tok == OPEN {
        if i + 2 >= |doc| {
          return Malformed;
        }
        var name := NameByRef(names, doc[i + 1]);
        if name.Malformed? {
          return Malformed;
        }
        stack, i := stack + [Bare(name.value)], i + 3;
      } else if tok == CLOSE {
        if |stack| <= 1 {
          return Malformed;
        }
        stack, i := Attach(stack[..n], stack[n]), i + 1;
      } else if tok == ATTR {
        if i + 2 >= |doc| {
          return Malformed;
        }
        var name := NameByRef(names, doc[i + 1]);
        if name.Malformed? {
          return Malformed;
        }
        if i + 3 >= |doc| || doc[i + 3] != ATTR_VALUE {
          return Malformed;
        }
        var v := ReadString(doc, i + 4);
        if v.Malformed? {
          return Malformed;
        }
        stack := stack[..n] + [stack[n].(attrs := stack[n].attrs + [Attr(name.value, v.value.0)])];
        i := v.value.1;
      } else if tok == ATTR_VALUE {
        var v := ReadString(doc, i + 1);
        if v.Malformed? {
          return Malformed;
        }
        i := v.value.1;
      } else if tok == BIND {
        if i + 2 >= |doc| {
          return Malformed;
        }
        i := i + 3;
      } else if tok == XMLNS {
        if i + 1 >= |doc| {
          return Malformed;
        }
        i := i + 2;
      } else if tok == TEXT || tok == STRING {
        var s := ReadString(doc, i + 1);
        if s.Malformed? {
          return Malformed;
        }
        stack := stack[..n] + [stack[n].(text := s.value.0, hasText := true)];
        i := s.value.1;
      } else if tok == BODY {
        var s := ReadString(doc, i + 1);
        if s.Malformed? {
          return Malformed;
        }
        stack := stack[..n] + [stack[n].(body := s.value.0, hasBody := true)];
        i := s.value.1;
      } else {
        return Malformed;
      }
      assert Token(doc, before) == Ok(Reader(i, names, stack));
    }
    if |stack| != 1 {
      return Malformed;
    }
    result := Ok(stack[0]);
  }

  // ---- finding the payload ----

  function Child(el: Element, name: Text): (r: Option<Element>)
    ensures r.Some? ==> r.value in el.children && r.value.name == name
    ensures r.None? <==> forall i :: 0 <= i < |el.children| ==> el.children[i].name != name
  {
    FirstNamed(el.children, name)
  }

  function FirstNamed(els: seq<Element>, name: Text): (r: Option<Element>)
    ensures r.Some? ==> r.value in els && r.value.name == name
    ensures r.None? <==> forall i :: 0 <= i < |els| ==> els[i].name != name
  {
    if els == [] then None
    else if els[0].name == name then Some(els[0])
    else FirstNamed(els[1..], name)
  }

  /** The named child, else the first child. */
  function NamedOrFirst(parent: Option<Element>, name: Text): Option<Element> {
    if parent.None? then None
    else
      var c := Child(parent.value, name);
      if c.None? && |parent.value.children| > 0 then Some(parent.value.children[0]) else c
  }

  function PayloadRoot(document: Element): Result<Element> {
    var values := NamedOrFirst(NamedOrFirst(Some(document), Ascii("abap")), Ascii("values"));
    if values.None? || |values.value.children| == 0 then Malformed else Ok(values.value.children[0])
  }

  // ---- what the parser can produce ----

  predicate AllShort(els: seq<Element>) { forall k :: 0 <= k < |els| ==> Short(els[k]) }

  predicate ShortNames(names: seq<Text>) { forall k :: 0 <= k < |names| ==> |names[k]| < LENGTH_LIMIT }

  lemma TokenShort(doc: seq<byte>, r: Reader)
    requires r.i < |doc| && |r.stack| > 0 && AllShort(r.stack) && ShortNames(r.names)
    ensures Token(doc, r).Ok? ==> AllShort(Token(doc, r).value.stack) && ShortNames(Token(doc, r).value.names)
  {
    hide ReadString;
    assert Short(Top(r.stack));
    if |r.stack| > 1 { assert Short(Top(r.stack[..|r.stack| - 1])); }
  }

  lemma {:induction false} ParseShort(doc: seq<byte>, r: Reader)
    requires r.i <= |doc| && |r.stack| > 0 && AllShort(r.stack) && ShortNames(r.names)
    ensures Parse(doc, r).Ok? ==> Short(Parse(doc, r).value)
    decreases |doc| - r.i
  {
    if r.i < |doc| {
      TokenAdvances(doc, r);
      TokenShort(doc, r);
      hide Token;
      if Token(doc, r).Ok? { ParseShort(doc, Token(doc, r).value); }
    }
  }

  /** Whatever the input, no decoded string reaches the length limit. */
  lemma DecodedIsShort(doc: seq<byte>)
    ensures DecodeDocument(doc).Ok? ==> Short(DecodeDocument(doc).value)
  {
    if MAGIC() <= doc {
      ParseShort(doc, Reader(|MAGIC()|, [], [Document()]));
    }
  }
}
