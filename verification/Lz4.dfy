/** The LZ4 block decoder and the block format it decodes. */
module Lz4 {
  import opened Bytes

  const MAX_DECOMPRESSED := 0x100_0000
  const MIN_MATCH := 4

  // ---- the block format ----

  /** Literals, then a match of length bytes starting offset bytes back. */
  datatype Sequence = Sequence(literals: seq<byte>, offset: nat, length: nat)

  /** The closing sequence has literals only; the low nibble of its token means nothing. */
  datatype Last = Last(literals: seq<byte>, nibble: nat)

  /** A block; the decoder also takes one that stops right after a match. */
  datatype Block = Block(sequences: seq<Sequence>, last: Option<Last>)

  /** The rest of a run length of fifteen or more: bytes of 255 and one smaller. */
  function Chain(n: nat): seq<byte> { if n < 255 then [n] else [255] + Chain(n - 255) }

  function Nibble(n: nat): nat { if n < 15 then n else 15 }
  function Extension(n: nat): seq<byte> { if n < 15 then [] else Chain(n - 15) }
  function Token(high: nat, low: nat): byte
    requires high < 16 && low < 16
  {
    high * 16 + low
  }

  predicate Sound(q: Sequence) { q.length >= MIN_MATCH && 1 <= q.offset < 0x1_0000 }

  function SequenceBytes(q: Sequence): seq<byte>
    requires Sound(q)
  {
    [Token(Nibble(|q.literals|), Nibble(q.length - MIN_MATCH))] + Extension(|q.literals|) + q.literals
    + [q.offset % 256, q.offset / 256] + Extension(q.length - MIN_MATCH)
  }

  function LastBytes(t: Last): seq<byte>
    requires t.nibble < 16
  {
    [Token(Nibble(|t.literals|), t.nibble)] + Extension(|t.literals|) + t.literals
  }

  predicate Expressible(b: Block) {
    && (forall k :: 0 <= k < |b.sequences| ==> Sound(b.sequences[k]))
    && (b.last.Some? ==> b.last.value.nibble < 16)
  }

  function Serialise(b: Block): seq<byte>
    requires Expressible(b)
    decreases |b.sequences|
  {
    if b.sequences == [] then
      if b.last.Some? then LastBytes(b.last.value) else []
    else
      SequenceBytes(b.sequences[0]) + Serialise(b.(sequences := b.sequences[1..]))
  }

  // ---- its meaning ----

  /** k modulo the period. */
  function Phase(k: nat, period: nat): (r: nat)
    requires period > 0
    ensures r < period
  {
    if k < period then k else Phase(k - period, period)
  }

  /** The match of n bytes: the last offset bytes of dst repeated periodically. */
  function Repeat(dst: seq<byte>, offset: nat, n: nat): seq<byte>
    requires 1 <= offset <= |dst|
  {
    seq(n, k requires 0 <= k < n => dst[|dst| - offset + Phase(k, offset)])
  }

  predicate Reaches(q: Sequence, dst: seq<byte>) { 1 <= q.offset <= |dst| + |q.literals| }

  function Apply(q: Sequence, dst: seq<byte>): (r: seq<byte>)
    requires Reaches(q, dst)
    ensures |r| == |dst| + |q.literals| + q.length
  {
    dst + q.literals + Repeat(dst + q.literals, q.offset, q.length)
  }

  /** Every match reaches back no further than what has been produced. */
  predicate WellFormed(b: Block, dst: seq<byte>)
    decreases |b.sequences|
  {
    b.sequences == []
    || (Reaches(b.sequences[0], dst) && WellFormed(b.(sequences := b.sequences[1..]), Apply(b.sequences[0], dst)))
  }

  function Meaning(b: Block, dst: seq<byte>): (r: seq<byte>)
    requires WellFormed(b, dst)
    ensures |dst| <= |r|
    decreases |b.sequences|
  {
    if b.sequences == [] then
      if b.last.Some? then dst + b.last.value.literals else dst
    else
      Meaning(b.(sequences := b.sequences[1..]), Apply(b.sequences[0], dst))
  }

  // ---- decoding as a function ----

  /** A length read, plus n. */
  function Longer(r: Option<(nat, nat)>, n: nat): Option<(nat, nat)> {
    match r
    case None => None
    case Some((m, j)) => Some((n + m, j))
  }

  function ReadChain(src: seq<byte>, i: nat): (r: Option<(nat, nat)>)
    ensures r.Some? ==> i < r.value.1 <= |src|
    decreases |src| - i
  {
    if i >= |src| then None
    else if src[i] != 255 then Some((src[i], i + 1))
    else Longer(ReadChain(src, i + 1), 255)
  }

  /** A run length whose nibble has been read. */
  function ReadRun(src: seq<byte>, i: nat, nibble: nat): (r: Option<(nat, nat)>)
    requires i <= |src|
    ensures r.Some? ==> i <= r.value.1 <= |src|
  {
    if nibble != 15 then Some((nibble, i)) else Longer(ReadChain(src, i), 15)
  }

  function Decoded(src: seq<byte>, i: nat, dst: seq<byte>, want: nat): Option<seq<byte>>
    requires i <= |src|
    decreases |src| - i
  {
    if i == |src| then Exactly(dst, want)
    else
      match ReadRun(src, i + 1, src[i] / 16)
      case None => None
      case Some((literals, j)) =>
        if literals > |src| - j || |dst| + literals > want then None
        else AfterLiterals(src, i, j + literals, dst + src[j..j + literals], want)
  }

  function Exactly(dst: seq<byte>, want: nat): Option<seq<byte>> { if |dst| == want then Some(dst) else None }

  /** The match of the sequence whose token is at i, from position k on. */
  function AfterLiterals(src: seq<byte>, i: nat, k: nat, dst: seq<byte>, want: nat): Option<seq<byte>>
    requires i < k <= |src|
    decreases |src| - i, 0
  {
    if k == |src| then Exactly(dst, want)
    else if k + 2 > |src| then None
    else
      var offset := src[k] as int + src[k + 1] as int * 256;
      if offset == 0 || offset > |dst| then None
      else
        match ReadRun(src, k + 2, src[i] % 16)
        case None => None
        case Some((m, j)) =>
          if |dst| + m + MIN_MATCH > want then None
          else Decoded(src, j, dst + Repeat(dst, offset, m + MIN_MATCH), want)
  }

  // ---- the decoder ----

  /** A chain read in a loop, giving up once the total is hopeless. */
  method ReadRunLength(src: seq<byte>, start: nat, nibble: nat, want: nat) returns (r: Option<(nat, nat)>)
    requires start <= |src| && nibble < 16
    ensures r.Some? ==> ReadRun(src, start, nibble) == r
    ensures r.None? ==> ReadRun(src, start, nibble).None? || ReadRun(src, start, nibble).value.0 > want
  {
    var n: nat, i: nat := nibble, start;
    if n == 15 {
      ghost var base: nat := 0;
      while true
        invariant start <= i <= |src| && n == 15 + base
        invariant ReadChain(src, start) == Longer(ReadChain(src, i), base)
        decreases |src| - i
      {
        if i >= |src| {
          return None;
        }
        var b := src[i];
        i := i + 1;
        n := n + b;
        if b != 255 {
          break;
        }
        base := base + 255;
        if n > want {
          return None;
        }
      }
    }
    r := Some((n, i));
  }

  /** The match copied byte by byte is the periodic extension, also when it overlaps what it writes. */
  method CopyMatch(dst: seq<byte>, offset: nat, length: nat) returns (out: seq<byte>)
    requires 1 <= offset <= |dst|
    ensures out == dst + Repeat(dst, offset, length)
  {
    hide Repeat;
    out := dst;
    var start := |dst| - offset;
    NoRepeat(dst, offset);
    for n := 0 to length
      invariant out == dst + Repeat(dst, offset, n)
    {
      RepeatStep(dst, offset, n);
      out := out + [out[start + n]];
    }
  }

  lemma NoRepeat(dst: seq<byte>, offset: nat)
    requires 1 <= offset <= |dst|
    ensures dst + Repeat(dst, offset, 0) == dst
  {
  }

  lemma RepeatStep(dst: seq<byte>, offset: nat, n: nat)
    requires 1 <= offset <= |dst|
    ensures var out := dst + Repeat(dst, offset, n);
            |dst| - offset + n < |out| && dst + Repeat(dst, offset, n + 1) == out + [out[|dst| - offset + n]]
  {
    var out := dst + Repeat(dst, offset, n);
    var k := |dst| - offset + n;
    if n < offset {
      assert out[k] == dst[k];
    } else {
      assert out[k] == Repeat(dst, offset, n)[n - offset];
    }
    assert Repeat(dst, offset, n + 1) == Repeat(dst, offset, n) + [out[k]];
  }

  method DecompressBlock(src: seq<byte>, want: int) returns (r: Option<(seq<byte>, nat)>)
    ensures r.Some? <==> 0 <= want <= MAX_DECOMPRESSED && Decoded(src, 0, [], want).Some?
    ensures r.Some? ==> r.value.0 == Decoded(src, 0, [], want).value && |r.value.0| == want && r.value.1 == |src|
  {
    hide Decoded, AfterLiterals, ReadRun, Repeat;
    if want < 0 || want > MAX_DECOMPRESSED {
      return None;
    }
    var dst: seq<byte> := [];
    var i: nat := 0;
    while i < |src|
      invariant i <= |src| && Decoded(src, 0, [], want) == Decoded(src, i, dst, want)
      decreases |src| - i
    {
      ghost var at, before := i, dst;
      var token := src[i];
      i := i + 1;
      var run := ReadRunLength(src, i, token / 16, want);
      LiteralsStep(src, at, before, want);
      if run.None? {
        return None;
      }
      var litLen := run.value.0;
      i := run.value.1;
      if litLen > |src| - i || |dst| + litLen > want {
        return None;
      }
      dst := dst + src[i..i + litLen];
      i := i + litLen;
      MatchStep(src, at, i, dst, want);
      if i == |src| {
        break;
      }
      if i + 2 > |src| {
        return None;
      }
      var offset := src[i] as int + src[i + 1] as int * 256;
      i := i + 2;
      if offset == 0 || offset > |dst| {
        return None;
      }
      run := ReadRunLength(src, i, token % 16, want);
      if run.None? {
        return None;
      }
      var matchLen := run.value.0 + MIN_MATCH;
      i := run.value.1;
      if |dst| + matchLen > want {
        return None;
      }
      dst := CopyMatch(dst, offset, matchLen);
    }
    AtTheEnd(src, dst, want);
    if |dst| != want {
      return None;
    }
    r := Some((dst, i));
  }

  // ---- the loop's branches, one unfolding at a time ----

  lemma AtTheEnd(src: seq<byte>, dst: seq<byte>, want: nat)
    ensures Decoded(src, |src|, dst, want) == if |dst| == want then Some(dst) else None
  {
  }

  lemma LiteralsStep(src: seq<byte>, i: nat, dst: seq<byte>, want: nat)
    requires i < |src|
    ensures var run := ReadRun(src, i + 1, src[i] / 16);
            Decoded(src, i, dst, want) ==
            if run.None? || run.value.0 > |src| - run.value.1 || |dst| + run.value.0 > want then None
            else AfterLiterals(src, i, run.value.1 + run.value.0, dst + src[run.value.1..run.value.1 + run.value.0], want)
  {
  }

  lemma MatchStep(src: seq<byte>, i: nat, k: nat, dst: seq<byte>, want: nat)
    requires i < k <= |src|
    ensures k == |src| ==> AfterLiterals(src, i, k, dst, want) == Decoded(src, k, dst, want)
    ensures k + 1 == |src| ==> AfterLiterals(src, i, k, dst, want) == None
    ensures k + 2 <= |src| ==>
              var offset := src[k] as int + src[k + 1] as int * 256;
              var run := ReadRun(src, k + 2, src[i] % 16);
              AfterLiterals(src, i, k, dst, want) ==
              if offset == 0 || offset > |dst| || run.None? || |dst| + run.value.0 + MIN_MATCH > want then None
              else Decoded(src, run.value.1, dst + Repeat(dst, offset, run.value.0 + MIN_MATCH), want)
  {
  }
}
