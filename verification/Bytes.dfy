/** Octets, and the big- and little-endian integers the wire formats are made of. */
module Bytes {

  type byte = x: int | 0 <= x < 256

  datatype Option<T> = None | Some(value: T)

  function Ascii(s: string): seq<byte> {
    seq(|s|, i requires 0 <= i < |s| => s[i] as int % 256)
  }

  /** bytes stand at offset i of doc. */
  predicate At(doc: seq<byte>, i: nat, bytes: seq<byte>) {
    i + |bytes| <= |doc| && doc[i..i + |bytes|] == bytes
  }

  lemma AtSplit(doc: seq<byte>, i: nat, a: seq<byte>, b: seq<byte>)
    requires At(doc, i, a + b)
    ensures At(doc, i, a) && At(doc, i + |a|, b)
  {
    assert doc[i..i + |a|] == (a + b)[..|a|];
    assert doc[i + |a|..i + |a| + |b|] == (a + b)[|a|..];
  }

  lemma AtSlice(doc: seq<byte>, i: nat, a: seq<byte>)
    requires At(doc, i, a)
    ensures i + |a| <= |doc| && doc[i..i + |a|] == a
  {
  }

  lemma AtIndex(doc: seq<byte>, i: nat, a: seq<byte>, k: nat)
    requires At(doc, i, a) && k < |a|
    ensures doc[i + k] == a[k]
  {
    assert doc[i..i + |a|][k] == a[k];
  }

  function Zeros(n: nat): (r: seq<byte>)
    ensures |r| == n
  {
    seq(n, _ => 0)
  }

  lemma AtJoin(doc: seq<byte>, i: nat, a: seq<byte>, b: seq<byte>)
    requires At(doc, i, a) && At(doc, i + |a|, b)
    ensures At(doc, i, a + b)
  {
    assert doc[i..i + |a| + |b|] == doc[i..i + |a|] + doc[i + |a|..i + |a| + |b|];
  }

  /** The unsigned value of bytes, most significant first. */
  function BigEndian(bytes: seq<byte>): nat {
    if bytes == [] then 0 else BigEndian(bytes[..|bytes| - 1]) * 256 + bytes[|bytes| - 1]
  }

  function U16(n: nat): (r: seq<byte>)
    ensures |r| == 2
  {
    [n / 0x100 % 256, n % 256]
  }

  function U32(n: nat): (r: seq<byte>)
    ensures |r| == 4
  {
    var a := n / 256;
    var b := a / 256;
    [b / 256 % 256, b % 256, a % 256, n % 256]
  }

  lemma BigEndianOfU16(n: nat)
    requires n < 0x1_0000
    ensures BigEndian(U16(n)) == n
  {
    var u := U16(n);
    assert u[..1] == [u[0]] && u[..0] == [];
    assert BigEndian([u[0]]) == u[0] by { assert [u[0]][..0] == []; }
  }

  lemma BigEndianOfU32(n: nat)
    requires n < 0x1_0000_0000
    ensures BigEndian(U32(n)) == n
  {
    BigEndianOf4(U32(n));
  }

  lemma BigEndianOf4(u: seq<byte>)
    requires |u| == 4
    ensures BigEndian(u) == ((u[0] as int * 256 + u[1]) * 256 + u[2]) * 256 + u[3]
  {
    assert u[..3][..2] == u[..2] && u[..2][..1] == u[..1] && u[..1][..0] == [];
    assert BigEndian(u[..1]) == u[0];
    assert BigEndian(u[..2]) == u[0] as int * 256 + u[1];
    assert BigEndian(u[..3]) == (u[0] as int * 256 + u[1]) * 256 + u[2];
  }

  /** The pieces end to end. */
  function Flatten(pieces: seq<seq<byte>>): seq<byte> {
    if pieces == [] then [] else pieces[0] + Flatten(pieces[1..])
  }

  lemma {:induction false} FlattenSplit(a: seq<seq<byte>>, b: seq<seq<byte>>)
    ensures Flatten(a + b) == Flatten(a) + Flatten(b)
    decreases |a|
  {
    if a == [] {
      assert a + b == b;
    } else {
      assert (a + b)[1..] == a[1..] + b;
      FlattenSplit(a[1..], b);
    }
  }

  lemma FlattenOne(piece: seq<byte>)
    ensures Flatten([piece]) == piece
  {
    assert [piece][1..] == [];
  }

  /** Copies bytes to offset off of a buffer whose first off bytes are already written. */
  method CopyInto(a: array<byte>, off: nat, bytes: seq<byte>)
    requires off + |bytes| <= a.Length
    modifies a
    ensures a[..off + |bytes|] == old(a[..off]) + bytes
  {
    for k := 0 to |bytes|
      invariant forall j :: 0 <= j < off ==> a[j] == old(a[j])
      invariant forall j :: off <= j < off + k ==> a[j] == bytes[j - off]
    {
      a[off + k] := bytes[k];
    }
    assert a[..off + |bytes|] == old(a[..off]) + bytes;
  }

  function Min(a: nat, b: nat): nat { if a < b then a else b }

  /** Full slices of a size, then what is left. */
  function Slices(s: seq<byte>, size: nat): seq<seq<byte>>
    requires size > 0
    decreases |s|
  {
    if s == [] then [] else if |s| <= size then [s] else [s[..size]] + Slices(s[size..], size)
  }

  lemma {:induction false} SlicesJoin(s: seq<byte>, size: nat)
    requires size > 0
    ensures Flatten(Slices(s, size)) == s
    ensures forall k :: 0 <= k < |Slices(s, size)| ==> 0 < |Slices(s, size)[k]| <= size
    ensures forall k :: 0 <= k < |Slices(s, size)| - 1 ==> |Slices(s, size)[k]| == size
    decreases |s|
  {
    if 0 < |s| <= size {
      FlattenOne(s);
    } else if s != [] {
      SlicesJoin(s[size..], size);
      assert Slices(s, size)[1..] == Slices(s[size..], size);
      assert s == s[..size] + s[size..];
    }
  }

  lemma SliceStep(s: seq<byte>, size: nat, off: nat)
    requires off < |s| && size > 0
    ensures var end := Min(off + size, |s|);
            Slices(s[off..], size) == [s[off..end]] + Slices(s[end..], size)
  {
    var end := Min(off + size, |s|);
    assert s[off..][..end - off] == s[off..end] && s[off..][end - off..] == s[end..];
    if end == |s| {
      assert s[off..] == s[off..end] && Slices(s[end..], size) == [];
    }
  }

  lemma NoSlices(s: seq<byte>, size: nat)
    requires size > 0
    ensures Slices(s[|s|..], size) == []
  {
  }

  method CutSlices(s: seq<byte>, size: nat) returns (pieces: seq<seq<byte>>)
    requires size > 0
    ensures pieces == Slices(s, size)
  {
    hide Slices;
    var total := |s|;
    pieces := [];
    var off: nat := 0;
    assert s[0..] == s;
    while off < total
      invariant pieces + Slices(s[Min(off, total)..], size) == Slices(s, size)
      decreases total - off
    {
      var end := Min(off + size, total);
      SliceStep(s, size, off);
      assert pieces + ([s[off..end]] + Slices(s[end..], size)) == (pieces + [s[off..end]]) + Slices(s[end..], size);
      pieces := pieces + [s[off..end]];
      off := off + size;
    }
    NoSlices(s, size);
    assert pieces + [] == pieces;
  }
}
