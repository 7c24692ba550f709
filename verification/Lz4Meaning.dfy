/** The decoder yields exactly the meanings of the blocks that serialise to its input. */
module Lz4Meaning {
  import opened Bytes
  import opened Lz4

  // ---- run lengths ----

  lemma {:induction false} ChainDecodes(src: seq<byte>, i: nat, n: nat)
    requires At(src, i, Chain(n))
    ensures ReadChain(src, i) == Some((n, i + |Chain(n)|))
    decreases n
  {
    AtIndex(src, i, Chain(n), 0);
    if n >= 255 {
      AtSplit(src, i, [255], Chain(n - 255));
      ChainDecodes(src, i + 1, n - 255);
    }
  }

  lemma {:induction false} ChainRead(src: seq<byte>, i: nat)
    requires ReadChain(src, i).Some?
    ensures var (n, j) := ReadChain(src, i).value; At(src, i, Chain(n)) && j == i + |Chain(n)|
    decreases |src| - i
  {
    if src[i] == 255 {
      ChainRead(src, i + 1);
      var (n, j) := ReadChain(src, i + 1).value;
      AtJoin(src, i, [255], Chain(n));
      assert Chain(255 + n) == [255] + Chain(n);
    }
  }

  lemma RunDecodes(src: seq<byte>, i: nat, n: nat)
    requires At(src, i, Extension(n))
    ensures ReadRun(src, i, Nibble(n)) == Some((n, i + |Extension(n)|))
  {
    if n >= 15 { ChainDecodes(src, i, n - 15); }
  }

  lemma RunRead(src: seq<byte>, i: nat, nibble: nat)
    requires i <= |src| && nibble < 16 && ReadRun(src, i, nibble).Some?
    ensures var (n, j) := ReadRun(src, i, nibble).value;
            Nibble(n) == nibble && At(src, i, Extension(n)) && j == i + |Extension(n)|
  {
    if nibble == 15 { ChainRead(src, i); }
  }

  /** Token, extension and literals stand at i. */
  predicate LiteralsAt(src: seq<byte>, i: nat, literals: seq<byte>, low: nat)
    requires low < 16
  {
    At(src, i, [Token(Nibble(|literals|), low)] + Extension(|literals|) + literals)
  }

  function LiteralsEnd(i: nat, literals: seq<byte>): nat { i + 1 + |Extension(|literals|)| + |literals| }

  lemma TokenParts(high: nat, low: nat)
    requires high < 16 && low < 16
    ensures Token(high, low) / 16 == high && Token(high, low) % 16 == low
  {
  }

  lemma LiteralsDecode(src: seq<byte>, i: nat, literals: seq<byte>, low: nat, dst: seq<byte>, want: nat)
    requires low < 16 && LiteralsAt(src, i, literals, low) && |dst| + |literals| <= want
    ensures i < LiteralsEnd(i, literals) <= |src| && src[i] % 16 == low
    ensures Decoded(src, i, dst, want) == AfterLiterals(src, i, LiteralsEnd(i, literals), dst + literals, want)
  {
    hide Decoded, AfterLiterals, ReadRun, Extension, Token, At, LiteralsAt;
    LiteralsParts(src, i, literals, low);
    var n := |literals|;
    RunDecodes(src, i + 1, n);
    LiteralsStep(src, i, dst, want);
  }

  lemma LiteralsParts(src: seq<byte>, i: nat, literals: seq<byte>, low: nat)
    requires low < 16 && LiteralsAt(src, i, literals, low)
    ensures i < LiteralsEnd(i, literals) <= |src| && src[i] % 16 == low && src[i] / 16 == Nibble(|literals|)
    ensures var j := i + 1 + |Extension(|literals|)|; At(src, i + 1, Extension(|literals|)) && src[j..j + |literals|] == literals
  {
    hide Extension, Token, At;
    var token, n := [Token(Nibble(|literals|), low)], |literals|;
    TokenParts(Nibble(n), low);
    AtSplit(src, i, token + Extension(n), literals);
    AtSplit(src, i, token, Extension(n));
    AtIndex(src, i, token, 0);
    AtSlice(src, i, token);
    AtSlice(src, i + 1 + |Extension(n)|, literals);
  }

  lemma LiteralsRead(src: seq<byte>, i: nat, dst: seq<byte>, want: nat) returns (literals: seq<byte>)
    requires i < |src| && Decoded(src, i, dst, want).Some?
    ensures LiteralsAt(src, i, literals, src[i] % 16) && |dst| + |literals| <= want
    ensures i < LiteralsEnd(i, literals) <= |src|
    ensures Decoded(src, i, dst, want) == AfterLiterals(src, i, LiteralsEnd(i, literals), dst + literals, want)
  {
    hide Decoded, AfterLiterals, ReadRun, Extension;
    LiteralsStep(src, i, dst, want);
    RunRead(src, i + 1, src[i] / 16);
    var (n, j) := ReadRun(src, i + 1, src[i] / 16).value;
    literals := src[j..j + n];
    var token := [Token(Nibble(n), src[i] % 16)];
    assert At(src, i, token) by { assert src[i..i + 1] == [src[i]]; }
    AtJoin(src, i, token, Extension(n));
    AtJoin(src, i, token + Extension(n), literals);
  }

  // ---- completeness ----

  lemma SequenceDecodes(src: seq<byte>, i: nat, q: Sequence, dst: seq<byte>, want: nat)
    requires Sound(q) && At(src, i, SequenceBytes(q)) && Reaches(q, dst) && |Apply(q, dst)| <= want
    ensures Decoded(src, i, dst, want) == Decoded(src, i + |SequenceBytes(q)|, Apply(q, dst), want)
  {
    hide Decoded, AfterLiterals, ReadRun, Extension, Repeat;
    var m := q.length - MIN_MATCH;
    var front := [Token(Nibble(|q.literals|), Nibble(m))] + Extension(|q.literals|) + q.literals;
    var back := [q.offset % 256, q.offset / 256];
    AtSplit(src, i, front + back, Extension(m));
    AtSplit(src, i, front, back);
    LiteralsDecode(src, i, q.literals, Nibble(m), dst, want);
    var k := LiteralsEnd(i, q.literals);
    AtIndex(src, k, back, 0);
    AtIndex(src, k, back, 1);
    RunDecodes(src, k + 2, m);
    MatchStep(src, i, k, dst + q.literals, want);
    assert |dst + q.literals| + m + MIN_MATCH == |Apply(q, dst)|;
  }

  lemma LastDecodes(src: seq<byte>, i: nat, t: Last, dst: seq<byte>)
    requires t.nibble < 16 && At(src, i, LastBytes(t)) && i + |LastBytes(t)| == |src|
    ensures Decoded(src, i, dst, |dst + t.literals|) == Some(dst + t.literals)
  {
    hide Decoded, AfterLiterals, ReadRun, Extension;
    var want := |dst + t.literals|;
    LiteralsDecode(src, i, t.literals, t.nibble, dst, want);
    MatchStep(src, i, |src|, dst + t.literals, want);
    AtTheEnd(src, dst + t.literals, want);
  }

  lemma {:induction false} BlockDecodes(src: seq<byte>, i: nat, b: Block, dst: seq<byte>)
    requires Expressible(b) && WellFormed(b, dst) && At(src, i, Serialise(b)) && i + |Serialise(b)| == |src|
    ensures Decoded(src, i, dst, |Meaning(b, dst)|) == Some(Meaning(b, dst))
    decreases |b.sequences|
  {
    hide Decoded, SequenceBytes, LastBytes, Apply;
    if b.sequences == [] {
      if b.last.Some? { LastDecodes(src, i, b.last.value, dst); } else { AtTheEnd(src, dst, |dst|); }
    } else {
      var q, rest := b.sequences[0], b.(sequences := b.sequences[1..]);
      AtSplit(src, i, SequenceBytes(q), Serialise(rest));
      SequenceDecodes(src, i, q, dst, |Meaning(b, dst)|);
      BlockDecodes(src, i + |SequenceBytes(q)|, rest, Apply(q, dst));
    }
  }

  // ---- soundness ----

  /** b is a way to read src from i on, and out is what it means after dst. */
  ghost predicate Explains(b: Block, src: seq<byte>, i: nat, dst: seq<byte>, out: seq<byte>) {
    && Expressible(b) && WellFormed(b, dst)
    && At(src, i, Serialise(b)) && i + |Serialise(b)| == |src|
    && out == Meaning(b, dst)
  }

  lemma MatchRead(src: seq<byte>, i: nat, literals: seq<byte>, dst: seq<byte>, want: nat) returns (q: Sequence)
    requires LiteralsAt(src, i, literals, if i < |src| then src[i] % 16 else 0) && i < LiteralsEnd(i, literals) < |src|
    requires AfterLiterals(src, i, LiteralsEnd(i, literals), dst + literals, want).Some?
    ensures Sound(q) && q.literals == literals && At(src, i, SequenceBytes(q)) && Reaches(q, dst)
    ensures AfterLiterals(src, i, LiteralsEnd(i, literals), dst + literals, want)
            == Decoded(src, i + |SequenceBytes(q)|, Apply(q, dst), want)
  {
    hide Decoded, AfterLiterals, ReadRun, Extension, Repeat;
    var k := LiteralsEnd(i, literals);
    MatchStep(src, i, k, dst + literals, want);
    var offset := src[k] as int + src[k + 1] as int * 256;
    RunRead(src, k + 2, src[i] % 16);
    var (m, j) := ReadRun(src, k + 2, src[i] % 16).value;
    q := Sequence(literals, offset, m + MIN_MATCH);
    var front := [Token(Nibble(|literals|), src[i] % 16)] + Extension(|literals|) + literals;
    var back := [offset % 256, offset / 256];
    assert At(src, k, back) by { assert src[k..k + 2] == back; }
    AtJoin(src, i, front, back);
    AtJoin(src, i, front + back, Extension(m));
  }

  lemma {:induction false} Explained(src: seq<byte>, i: nat, dst: seq<byte>, want: nat) returns (b: Block)
    requires i <= |src| && Decoded(src, i, dst, want).Some?
    ensures Explains(b, src, i, dst, Decoded(src, i, dst, want).value)
    decreases |src| - i
  {
    hide Decoded, AfterLiterals, SequenceBytes, Extension, Apply;
    if i == |src| {
      AtTheEnd(src, dst, want);
      b := Block([], None);
    } else {
      var literals := LiteralsRead(src, i, dst, want);
      var k := LiteralsEnd(i, literals);
      if k == |src| {
        MatchStep(src, i, k, dst + literals, want);
        AtTheEnd(src, dst + literals, want);
        b := Block([], Some(Last(literals, src[i] % 16)));
      } else {
        var q := MatchRead(src, i, literals, dst, want);
        var i' := i + |SequenceBytes(q)|;
        SequenceIsLonger(q);
        var rest := Explained(src, i', Apply(q, dst), want);
        b := PrependExplains(q, rest, src, i, dst, Decoded(src, i, dst, want).value);
      }
    }
  }

  lemma SequenceIsLonger(q: Sequence)
    requires Sound(q)
    ensures |SequenceBytes(q)| >= 3
  {
  }

  lemma PrependExplains(q: Sequence, rest: Block, src: seq<byte>, i: nat, dst: seq<byte>, out: seq<byte>) returns (b: Block)
    requires Sound(q) && At(src, i, SequenceBytes(q)) && Reaches(q, dst)
    requires Explains(rest, src, i + |SequenceBytes(q)|, Apply(q, dst), out)
    ensures Explains(b, src, i, dst, out)
  {
    hide SequenceBytes, Apply;
    b := rest.(sequences := [q] + rest.sequences);
    assert b.sequences[1..] == rest.sequences;
    assert b.(sequences := b.sequences[1..]) == rest;
    AtJoin(src, i, SequenceBytes(q), Serialise(rest));
  }

  /** The decoder's answer is out exactly when the input is some block, with every match inside what it has
      produced, whose meaning is out and has the wanted length. */
  lemma DecodesIff(src: seq<byte>, want: nat, out: seq<byte>)
    ensures Decoded(src, 0, [], want) == Some(out) <==> |out| == want && exists b :: Explains(b, src, 0, [], out)
  {
    hide Explains;
    if Decoded(src, 0, [], want) == Some(out) {
      var b := Explained(src, 0, [], want);
      DecodedLength(src, 0, [], want);
    }
    if |out| == want && exists b :: Explains(b, src, 0, [], out) {
      var b :| Explains(b, src, 0, [], out);
      ExplainsDecodes(b, src, out);
    }
  }

  lemma ExplainsDecodes(b: Block, src: seq<byte>, out: seq<byte>)
    requires Explains(b, src, 0, [], out)
    ensures Decoded(src, 0, [], |out|) == Some(out)
  {
    BlockDecodes(src, 0, b, []);
  }

  lemma {:induction false} DecodedLength(src: seq<byte>, i: nat, dst: seq<byte>, want: nat)
    requires i <= |src|
    ensures Decoded(src, i, dst, want).Some? ==> |Decoded(src, i, dst, want).value| == want
    decreases |src| - i
  {
    hide Decoded, AfterLiterals;
    if i == |src| {
      AtTheEnd(src, dst, want);
    } else if Decoded(src, i, dst, want).Some? {
      var literals := LiteralsRead(src, i, dst, want);
      var k := LiteralsEnd(i, literals);
      if k == |src| {
        MatchStep(src, i, k, dst + literals, want);
        AtTheEnd(src, dst + literals, want);
      } else {
        var q := MatchRead(src, i, literals, dst, want);
        SequenceIsLonger(q);
        DecodedLength(src, i + |SequenceBytes(q)|, Apply(q, dst), want);
      }
    }
  }

  // ---- the header in front of a block ----

  const HEADER_LENGTH := 8

  datatype Compressed = Compressed(offset: nat, compressedSize: nat, uncompressedSize: nat, data: seq<byte>)

  function LittleEndian(b: seq<byte>): nat { if b == [] then 0 else b[0] + 256 * LittleEndian(b[1..]) }

  /** Reads the two sizes at off and decompresses what follows. */
  method DecodeCompressedAt(payload: seq<byte>, off: int) returns (r: Option<(Compressed, nat)>)
    ensures r.Some? <==> 0 <= off && HeaderFits(payload, off)
                         && Decoded(BlockAt(payload, off), 0, [], UncompressedAt(payload, off)).Some?
    ensures r.Some? ==>
              && Some(r.value.0.data) == Decoded(BlockAt(payload, off), 0, [], UncompressedAt(payload, off))
              && |r.value.0.data| == r.value.0.uncompressedSize == UncompressedAt(payload, off)
              && r.value.0.offset == off && r.value.0.compressedSize == CompressedAt(payload, off)
              && r.value.1 == off + HEADER_LENGTH + CompressedAt(payload, off) <= |payload|
  {
    hide Decoded, LittleEndian;
    if off < 0 || off + HEADER_LENGTH > |payload| {
      return None;
    }
    var uncompressed := LittleEndian(payload[off..off + 4]);
    var compressed := LittleEndian(payload[off + 4..off + 8]);
    if compressed <= 0 || uncompressed <= 0 || compressed > uncompressed || uncompressed > MAX_DECOMPRESSED {
      return None;
    }
    var start := off + HEADER_LENGTH;
    if start + compressed > |payload| {
      return None;
    }
    var block := DecompressBlock(payload[start..start + compressed], uncompressed);
    if block.None? || block.value.1 != compressed {
      return None;
    }
    r := Some((Compressed(off, compressed, uncompressed, block.value.0), start + compressed));
  }

  function UncompressedAt(payload: seq<byte>, off: nat): nat
    requires off + HEADER_LENGTH <= |payload|
  {
    LittleEndian(payload[off..off + 4])
  }

  function CompressedAt(payload: seq<byte>, off: nat): nat
    requires off + HEADER_LENGTH <= |payload|
  {
    LittleEndian(payload[off + 4..off + 8])
  }

  /** Both sizes are there, positive, not expanding, within bounds and inside the payload. */
  predicate HeaderFits(payload: seq<byte>, off: nat) {
    && off + HEADER_LENGTH <= |payload|
    && 0 < CompressedAt(payload, off) <= UncompressedAt(payload, off) <= MAX_DECOMPRESSED
    && off + HEADER_LENGTH + CompressedAt(payload, off) <= |payload|
  }

  function BlockAt(payload: seq<byte>, off: nat): seq<byte>
    requires HeaderFits(payload, off)
  {
    payload[off + HEADER_LENGTH..off + HEADER_LENGTH + CompressedAt(payload, off)]
  }
}
