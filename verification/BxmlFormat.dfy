/** SAP Binary XML: elements, the length code and strings. */
module BxmlFormat {
  import opened Bytes

  type Text = seq<byte>

  datatype Attr = Attr(name: Text, value: Text)
  datatype Element = Element(
    name: Text, attrs: seq<Attr>, children: seq<Element>,
    text: Text, hasText: bool, body: Text, hasBody: bool)

  datatype Result<T> = Ok(value: T) | Malformed

  const HEADER: byte := 0x3f
  const NAME: byte := 0x2b
  const OPEN: byte := 0x3c
  const CLOSE: byte := 0x3e
  const ATTR: byte := 0x40
  const ATTR_VALUE: byte := 0x41
  const BIND: byte := 0x3a
  const XMLNS: byte := 0x2a
  const TEXT: byte := 0x54
  const BODY: byte := 0x42
  const STRING: byte := 0x43
  const NAME_REF_BIAS := 2
  /** One more than the longest byte count a length can carry. */
  const LENGTH_LIMIT := 0x200000

  function Bare(name: Text): Element { Element(name, [], [], [], false, [], false) }

  /** A byte count as a UTF-8 encoded scalar, six bits to a continuation byte; the leading byte of the
      longest form has room for four bits of what is left. */
  function WriteLength(n: nat): (out: seq<byte>)
    ensures 1 <= |out| <= 4 && |out| == LengthSize(out[0])
    ensures forall k :: 0 < k < |out| ==> 0x80 <= out[k] < 0xc0
  {
    var a := n / 64;
    var b := a / 64;
    if n < 0x80 then [n]
    else if n < 0x800 then [0xc0 + a, Tail(n)]
    else if n < 0x10000 then [0xe0 + b, Tail(a), Tail(n)]
    else [0xf0 + b / 64 % 16, Tail(b), Tail(a), Tail(n)]
  }

  /** The continuation byte for the six low bits, and those bits again. */
  function Tail(n: nat): byte { 0x80 + n % 64 }
  function Low(b: byte): nat { b % 64 }

  /** How many bytes a length takes, by its first. */
  function LengthSize(lead: byte): nat { if lead < 0x80 then 1 else if lead < 0xe0 then 2 else if lead < 0xf0 then 3 else 4 }

  function ReadLength(doc: seq<byte>, i: nat): (r: Result<(nat, nat)>)
    ensures r.Ok? <==> i < |doc| && i + LengthSize(doc[i]) <= |doc|
    ensures r.Ok? ==> r.value.1 == i + LengthSize(doc[i])
    ensures r.Ok? ==> r.value.0 < LENGTH_LIMIT && i < r.value.1 <= |doc|
  {
    if i >= |doc| then Malformed
    else
      var c: int := doc[i];
      if c < 0x80 then Ok((c, i + 1))
      else if c < 0xe0 then
        if i + 1 >= |doc| then Malformed
        else Ok((c % 32 * 64 + Low(doc[i + 1]), i + 2))
      else if c < 0xf0 then
        if i + 2 >= |doc| then Malformed
        else Ok(((c % 16 * 64 + Low(doc[i + 1])) * 64 + Low(doc[i + 2]), i + 3))
      else
        if i + 3 >= |doc| then Malformed
        else Ok((((c % 8 * 64 + Low(doc[i + 1])) * 64 + Low(doc[i + 2])) * 64 + Low(doc[i + 3]), i + 4))
  }

  function ReadString(doc: seq<byte>, i: nat): (r: Result<(Text, nat)>)
    ensures r.Ok? ==> |r.value.0| < LENGTH_LIMIT && i < r.value.1 <= |doc|
    ensures r.Ok? ==> |r.value.0| <= r.value.1 && r.value.0 == doc[r.value.1 - |r.value.0|..r.value.1]
  {
    match ReadLength(doc, i)
    case Malformed => Malformed
    case Ok((n, j)) => if j + n > |doc| then Malformed else Ok((doc[j..j + n], j + n))
  }

  function WriteString(s: Text): seq<byte> { WriteLength(|s|) + s }

  lemma LowOfTail(n: nat)
    ensures Low(Tail(n)) == n % 64
  {
  }

  lemma ShortLengths(doc: seq<byte>, i: nat, n: nat)
    requires n < 0x800 && At(doc, i, WriteLength(n))
    ensures ReadLength(doc, i) == Ok((n, i + |WriteLength(n)|))
  {
    var w := WriteLength(n);
    AtIndex(doc, i, w, 0);
    if 0x80 <= n { AtIndex(doc, i, w, 1); }
  }

  lemma MiddleLengths(doc: seq<byte>, i: nat, n: nat)
    requires 0x800 <= n < 0x10000 && At(doc, i, WriteLength(n))
    ensures ReadLength(doc, i) == Ok((n, i + 3))
  {
    hide Tail, Low;
    var w, a := WriteLength(n), n / 64;
    AtIndex(doc, i, w, 0);
    AtIndex(doc, i, w, 1);
    AtIndex(doc, i, w, 2);
    LowOfTail(n);
    LowOfTail(a);
  }

  lemma LongLengths(doc: seq<byte>, i: nat, n: nat)
    requires 0x10000 <= n && At(doc, i, WriteLength(n))
    ensures ReadLength(doc, i) == Ok((n % LENGTH_LIMIT, i + 4))
  {
    hide Tail, Low;
    var w, a := WriteLength(n), n / 64;
    var b := a / 64;
    AtIndex(doc, i, w, 0);
    AtIndex(doc, i, w, 1);
    AtIndex(doc, i, w, 2);
    AtIndex(doc, i, w, 3);
    LowOfTail(n);
    LowOfTail(a);
    LowOfTail(b);
    LongForm(n, a, b, b / 64);
  }

  /** The length code loses everything above 21 bits and nothing below. */
  lemma LengthRoundTrip(doc: seq<byte>, i: nat, n: nat)
    requires At(doc, i, WriteLength(n))
    ensures ReadLength(doc, i) == Ok((n % LENGTH_LIMIT, i + |WriteLength(n)|))
  {
    hide ReadLength;
    if n < 0x800 {
      ShortLengths(doc, i, n);
    } else if n < 0x10000 {
      MiddleLengths(doc, i, n);
    } else {
      LongLengths(doc, i, n);
    }
  }

  lemma LongForm(n: nat, a: nat, b: nat, c: nat)
    requires a == n / 64 && b == a / 64 && c == b / 64
    ensures (((0xf0 + c % 16) % 8 * 64 + b % 64) * 64 + a % 64) * 64 + n % 64 == n % LENGTH_LIMIT
  {
    var low := ((c % 8 * 64 + b % 64) * 64 + a % 64) * 64 + n % 64;
    assert (0xf0 + c % 16) % 8 == c % 8;
    assert n == low + c / 8 * LENGTH_LIMIT;
    assert 0 <= low < LENGTH_LIMIT;
  }

  lemma StringRoundTrip(doc: seq<byte>, i: nat, s: Text)
    requires At(doc, i, WriteString(s)) && |s| < LENGTH_LIMIT
    ensures ReadString(doc, i) == Ok((s, i + |WriteString(s)|))
  {
    hide WriteLength, ReadLength;
    AtSplit(doc, i, WriteLength(|s|), s);
    LengthRoundTrip(doc, i, |s|);
  }

  // ---- which strings a tree holds ----

  predicate ShortAttr(a: Attr) { |a.name| < LENGTH_LIMIT && |a.value| < LENGTH_LIMIT }

  /** No string of the tree reaches the length limit. */
  predicate Short(el: Element)
    decreases el
  {
    && |el.name| < LENGTH_LIMIT && |el.text| < LENGTH_LIMIT && |el.body| < LENGTH_LIMIT
    && (forall i :: 0 <= i < |el.attrs| ==> ShortAttr(el.attrs[i]))
    && (forall i :: 0 <= i < |el.children| ==> Short(el.children[i]))
  }

  /** What the format can say of a tree: text gives way to a body, and absent contents are empty. */
  function Normal(el: Element): Element
    decreases el
  {
    var keepsText := el.hasText && !el.hasBody;
    Element(el.name, el.attrs, seq(|el.children|, i requires 0 <= i < |el.children| => Normal(el.children[i])),
            if keepsText then el.text else [], keepsText, if el.hasBody then el.body else [], el.hasBody)
  }
}
