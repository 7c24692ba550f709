/** The NI frame separator: a queue of retained chunks with a head cursor, refining a flat buffer. */
module NiFrame {
  import opened Bytes

  const LENGTH_BYTES := 4
  const MAX_UINT32 := 0xffff_ffff

  datatype Failure = PayloadTooLong | PayloadTooLarge | TruncatedStream | InconsistentQueue
  datatype Result<T> = Ok(value: T) | Err(error: Failure)

  function EncodeFrame(payload: seq<byte>): Result<seq<byte>> {
    if |payload| > MAX_UINT32 then Err(PayloadTooLong) else Ok(U32(|payload|) + payload)
  }

  // ---- the flat view ----

  /** Complete payloads, what is left, and whether the leftover starts with a length above the limit. */
  datatype Cut = Cut(payloads: seq<seq<byte>>, rest: seq<byte>, tooLarge: bool)

  function Advertised(buffer: seq<byte>): nat
    requires |buffer| >= LENGTH_BYTES
  {
    BigEndian(buffer[..LENGTH_BYTES])
  }

  function Separate(buffer: seq<byte>, limit: nat): Cut
    decreases |buffer|
  {
    if |buffer| < LENGTH_BYTES then Cut([], buffer, false)
    else
      var n := Advertised(buffer);
      if n > limit then Cut([], buffer, true)
      else if |buffer| < LENGTH_BYTES + n then Cut([], buffer, false)
      else
        var later := Separate(buffer[LENGTH_BYTES + n..], limit);
        later.(payloads := [buffer[LENGTH_BYTES..LENGTH_BYTES + n]] + later.payloads)
  }

  // ---- the chunk queue ----

  /** The bytes from offset o of chunk i on. */
  function From(chunks: seq<seq<byte>>, i: nat, o: nat): seq<byte> {
    if i < |chunks| && o <= |chunks[i]| then chunks[i][o..] + Flatten(chunks[i + 1..]) else []
  }

  predicate NoEmpty(chunks: seq<seq<byte>>, from: nat) {
    forall k :: from <= k < |chunks| ==> |chunks[k]| > 0
  }

  /** Stepping past the end of chunk i. */
  lemma NextChunk(chunks: seq<seq<byte>>, i: nat)
    requires i < |chunks|
    ensures From(chunks, i, |chunks[i]|) == From(chunks, i + 1, 0)
  {
    if i + 1 < |chunks| {
      assert chunks[i + 1..][0] == chunks[i + 1] && chunks[i + 1..][1..] == chunks[i + 2..];
      assert chunks[i + 1][0..] == chunks[i + 1];
    }
  }

  /** The first bytes of the queue lie in the head chunk. */
  lemma HeadSlice(chunks: seq<seq<byte>>, i: nat, o: nat, take: nat)
    requires i < |chunks| && o + take <= |chunks[i]|
    ensures From(chunks, i, o) == chunks[i][o..o + take] + From(chunks, i, o + take)
    ensures |chunks[i]| - o <= |From(chunks, i, o)|
  {
    hide Flatten;
    CutSlice(chunks[i], o, take, Flatten(chunks[i + 1..]));
  }

  lemma NoPieces()
    ensures Flatten([]) == []
  {
  }

  lemma CutSlice(c: seq<byte>, o: nat, take: nat, rest: seq<byte>)
    requires o + take <= |c|
    ensures c[o..] + rest == c[o..o + take] + (c[o + take..] + rest)
  {
    assert c[o..] == c[o..o + take] + c[o + take..];
    Reassociate(c[o..o + take], c[o + take..], rest);
  }

  lemma Parts(a: seq<byte>, b: seq<byte>, whole: seq<byte>)
    requires a + b == whole
    ensures whole[..|a|] == a && whole[|a|..] == b
  {
  }

  lemma AppendChunk(chunks: seq<seq<byte>>, i: nat, o: nat, chunk: seq<byte>)
    requires i <= |chunks| && if i < |chunks| then o <= |chunks[i]| else o == 0
    ensures From(chunks + [chunk], i, o) == From(chunks, i, o) + chunk
  {
    hide Flatten;
    FlattenOne(chunk);
    if i < |chunks| {
      assert (chunks + [chunk])[i + 1..] == chunks[i + 1..] + [chunk];
      FlattenSplit(chunks[i + 1..], [chunk]);
      Reassociate(chunks[i][o..], Flatten(chunks[i + 1..]), chunk);
    } else {
      NoPieces();
      assert (chunks + [chunk])[i + 1..] == [];
      assert chunk[0..] == chunk;
    }
  }

  class FrameDecoder {
    const maxPayloadLength: nat
    var chunks: seq<seq<byte>>
    var headIndex: nat
    var headOffset: nat
    var buffered: nat

    function Contents(): seq<byte>
      reads this
    {
      From(chunks, headIndex, headOffset)
    }

    predicate Cursor()
      reads this
    {
      && headIndex <= |chunks| && NoEmpty(chunks, headIndex)
      && if headIndex < |chunks| then headOffset < |chunks[headIndex]| else headOffset == 0
    }

    predicate Valid()
      reads this
    {
      Cursor() && buffered == |Contents()|
    }

    constructor (limit: nat)
      ensures Valid() && Contents() == [] && maxPayloadLength == limit
    {
      maxPayloadLength := limit;
      chunks, headIndex, headOffset, buffered := [], 0, 0, 0;
    }

    /** Reads the length prefix across chunk boundaries without consuming it. */
    method PeekPayloadLength() returns (r: Result<nat>)
      requires Valid() && buffered >= LENGTH_BYTES
      ensures r == Ok(Advertised(Contents()))
    {
      hide From, BigEndian, NoEmpty;
      var value: nat := 0;
      var remaining: nat := LENGTH_BYTES;
      var chunkIndex: nat, chunkOffset: nat := headIndex, headOffset;
      ghost var prefix: seq<byte> := [];
      EmptyIsZero();
      while remaining > 0
        invariant remaining + |prefix| == LENGTH_BYTES && value == BigEndian(prefix)
        invariant headIndex <= chunkIndex <= |chunks|
        invariant remaining > 0 ==> Contents() == prefix + From(chunks, chunkIndex, chunkOffset)
        invariant prefix <= Contents()
        invariant chunkOffset == if chunkIndex == headIndex then headOffset else 0
        decreases |chunks| - chunkIndex
      {
        PastTheEnd(chunks, chunkIndex, chunkOffset);
        if chunkIndex >= |chunks| {
          return Err(InconsistentQueue);
        }
        NotEmptyAt(chunks, headIndex, chunkIndex);
        var current := chunks[chunkIndex];
        var take := if remaining < |current| - chunkOffset then remaining else |current| - chunkOffset;
        HeadSlice(chunks, chunkIndex, chunkOffset, take);
        ghost var start, slice := prefix, current[chunkOffset..chunkOffset + take];
        Reassociate(start, slice, From(chunks, chunkIndex, chunkOffset + take));
        for k := 0 to take
          invariant prefix == start + slice[..k] && value == BigEndian(prefix)
        {
          OneMoreByte(start, slice, k);
          PushByte(prefix, slice[k]);
          prefix := prefix + [slice[k]];
          value := value * 256 + current[chunkOffset + k];
        }
        assert slice[..take] == slice;
        NextChunk(chunks, chunkIndex);
        remaining := remaining - take;
        chunkIndex := chunkIndex + 1;
        chunkOffset := 0;
      }
      assert prefix == Contents()[..LENGTH_BYTES];
      r := Ok(value);
    }

    /** Removes length bytes from the head of the queue. */
    method Consume(length: nat) returns (r: Result<seq<byte>>)
      requires Valid()
      modifies this
      ensures Valid()
      ensures length <= old(buffered) ==> r == Ok(old(Contents())[..length]) && Contents() == old(Contents())[length..]
      ensures length > old(buffered) ==> r == Err(InconsistentQueue) && Contents() == old(Contents())
    {
      hide From, NoEmpty;
      if length > buffered {
        return Err(InconsistentQueue);
      }
      var result: seq<byte> := [];
      while |result| < length
        invariant |result| <= length && Cursor()
        invariant result + Contents() == old(Contents())
        invariant buffered == old(buffered)
        decreases length - |result|
      {
        PastTheEnd(chunks, headIndex, headOffset);
        if headIndex >= |chunks| {
          return Err(InconsistentQueue);
        }
        var current := chunks[headIndex];
        var take := if length - |result| < |current| - headOffset then length - |result| else |current| - headOffset;
        HeadSlice(chunks, headIndex, headOffset, take);
        Reassociate(result, current[headOffset..headOffset + take], From(chunks, headIndex, headOffset + take));
        result := result + current[headOffset..headOffset + take];
        headOffset := headOffset + take;
        if headOffset == |current| {
          NextChunk(chunks, headIndex);
          NotEmptyAfter(chunks, headIndex);
          headIndex := headIndex + 1;
          headOffset := 0;
        }
      }
      Parts(result, Contents(), old(Contents()));
      buffered := buffered - length;
      Compact();
      r := Ok(result);
    }

    /** Drops consumed chunks; the buffer is what it was. */
    method Compact()
      requires Cursor()
      modifies this`chunks, this`headIndex
      ensures Cursor() && Contents() == old(Contents())
    {
      if headIndex == |chunks| {
        Wipe(0, |chunks|);
        chunks := [];
        headIndex := 0;
        return;
      }
      if headIndex >= 64 && headIndex * 2 >= |chunks| {
        Wipe(0, headIndex);
        assert old(chunks)[headIndex + 1..] == chunks[headIndex..][1..];
        chunks := chunks[headIndex..];
        headIndex := 0;
      }
    }

    method Wipe(from: nat, to: nat)
      requires from <= to <= |chunks|
      modifies this`chunks
      ensures |chunks| == |old(chunks)|
      ensures forall k :: 0 <= k < |chunks| ==> chunks[k] == if from <= k < to then [] else old(chunks)[k]
    {
      for index := from to to
        invariant |chunks| == |old(chunks)|
        invariant forall k :: 0 <= k < |chunks| ==> chunks[k] == if from <= k < index then [] else old(chunks)[k]
      {
        chunks := chunks[index := []];
      }
    }

    /** Every payload the chunk completes, or an error exactly when a reached prefix advertises too much;
        either way the buffer holds what the flat separation leaves. */
    method Push(chunk: seq<byte>) returns (r: Result<seq<seq<byte>>>)
      requires Valid()
      modifies this
      ensures Valid()
      ensures var cut := Separate(old(Contents()) + chunk, maxPayloadLength);
              Contents() == cut.rest && r == if cut.tooLarge then Err(PayloadTooLarge) else Ok(cut.payloads)
    {
      hide From, NoEmpty, BigEndian, Advertised, Separate;
      if |chunk| > 0 {
        AppendChunk(chunks, headIndex, headOffset, chunk);
        StillNotEmpty(chunks, headIndex, chunk);
        chunks := chunks + [chunk];
        buffered := buffered + |chunk|;
      }
      ghost var input := old(Contents()) + chunk;
      assert Contents() == input;
      ghost var all := Separate(input, maxPayloadLength);
      var payloads: seq<seq<byte>> := [];
      assert [] + all.payloads == all.payloads;
      while buffered >= LENGTH_BYTES
        invariant Valid()
        invariant var later := Separate(Contents(), maxPayloadLength); all == later.(payloads := payloads + later.payloads)
        decreases buffered
      {
        ghost var head := Contents();
        var advertised := PeekPayloadLength();
        if advertised.Err? {
          return Err(InconsistentQueue);
        }
        if advertised.value > maxPayloadLength {
          NoFrame(head, maxPayloadLength);
          return Err(PayloadTooLarge);
        }
        if buffered < LENGTH_BYTES + advertised.value {
          break;
        }
        NextFrame(all, payloads, head, maxPayloadLength);
        var prefix := Consume(LENGTH_BYTES);
        if prefix.Err? {
          return Err(InconsistentQueue);
        }
        var payload := Consume(advertised.value);
        if payload.Err? {
          return Err(InconsistentQueue);
        }
        assert payload.value == head[LENGTH_BYTES..LENGTH_BYTES + advertised.value];
        assert Contents() == head[LENGTH_BYTES + advertised.value..];
        payloads := payloads + [payload.value];
      }
      NoFrame(Contents(), maxPayloadLength);
      assert payloads + [] == payloads;
      r := Ok(payloads);
    }

    method Finish() returns (r: Result<()>)
      requires Valid()
      ensures r == if Contents() == [] then Ok(()) else Err(TruncatedStream)
    {
      if buffered != 0 {
        return Err(TruncatedStream);
      }
      r := Ok(());
    }

    method Reset()
      requires Valid()
      modifies this
      ensures Valid() && Contents() == []
    {
      Wipe(0, |chunks|);
      chunks, headIndex, headOffset, buffered := [], 0, 0, 0;
    }
  }

  // ---- facts the loops need about the queue ----

  lemma EmptyIsZero()
    ensures BigEndian([]) == 0
  {
  }

  lemma PushByte(bytes: seq<byte>, b: byte)
    ensures BigEndian(bytes + [b]) == BigEndian(bytes) * 256 + b
  {
    assert (bytes + [b])[..|bytes|] == bytes;
  }

  lemma OneMoreByte(start: seq<byte>, slice: seq<byte>, k: nat)
    requires k < |slice|
    ensures (start + slice[..k]) + [slice[k]] == start + slice[..k + 1]
  {
  }

  /** One frame off the front of the buffer joins the payloads. */
  lemma NextFrame(all: Cut, payloads: seq<seq<byte>>, head: seq<byte>, limit: nat)
    requires |head| >= LENGTH_BYTES && Advertised(head) <= limit && |head| >= LENGTH_BYTES + Advertised(head)
    requires all == Separate(head, limit).(payloads := payloads + Separate(head, limit).payloads)
    ensures var n := LENGTH_BYTES + Advertised(head);
            var later := Separate(head[n..], limit);
            all == later.(payloads := (payloads + [head[LENGTH_BYTES..n]]) + later.payloads)
  {
    hide Advertised;
    var n := LENGTH_BYTES + Advertised(head);
    assert payloads + ([head[LENGTH_BYTES..n]] + Separate(head[n..], limit).payloads)
        == (payloads + [head[LENGTH_BYTES..n]]) + Separate(head[n..], limit).payloads;
  }

  lemma Reassociate(a: seq<byte>, b: seq<byte>, c: seq<byte>)
    ensures a + (b + c) == (a + b) + c
  {
  }

  lemma PastTheEnd(chunks: seq<seq<byte>>, i: nat, o: nat)
    ensures i >= |chunks| ==> From(chunks, i, o) == []
  {
  }

  lemma NotEmptyAt(chunks: seq<seq<byte>>, from: nat, i: nat)
    requires NoEmpty(chunks, from) && from <= i < |chunks|
    ensures |chunks[i]| > 0
  {
  }

  lemma NotEmptyAfter(chunks: seq<seq<byte>>, from: nat)
    requires NoEmpty(chunks, from) && from < |chunks|
    ensures NoEmpty(chunks, from + 1) && (from + 1 < |chunks| ==> |chunks[from + 1]| > 0)
  {
  }

  lemma StillNotEmpty(chunks: seq<seq<byte>>, from: nat, chunk: seq<byte>)
    requires NoEmpty(chunks, from) && |chunk| > 0
    ensures NoEmpty(chunks + [chunk], from)
  {
  }

  // ---- what the flat separation promises ----

  function Then(first: Cut, later: Cut): Cut { later.(payloads := first.payloads + later.payloads) }

  predicate HasFrame(buffer: seq<byte>, limit: nat) {
    |buffer| >= LENGTH_BYTES && Advertised(buffer) <= limit && |buffer| >= LENGTH_BYTES + Advertised(buffer)
  }

  /** Taking the first frame off, with whatever follows. */
  lemma FirstFrame(buffer: seq<byte>, more: seq<byte>, limit: nat)
    requires HasFrame(buffer, limit)
    ensures var n := Advertised(buffer);
            Separate(buffer + more, limit)
            == Then(Cut([buffer[LENGTH_BYTES..LENGTH_BYTES + n]], [], false), Separate(buffer[LENGTH_BYTES + n..] + more, limit))
  {
    hide Advertised;
    SamePrefix(buffer, more);
    var n := Advertised(buffer);
    assert (buffer + more)[LENGTH_BYTES + n..] == buffer[LENGTH_BYTES + n..] + more;
    assert (buffer + more)[LENGTH_BYTES..LENGTH_BYTES + n] == buffer[LENGTH_BYTES..LENGTH_BYTES + n];
  }

  /** Separating in two goes is separating in one, also across a length that is too large. */
  lemma {:induction false} SeparateMore(buffer: seq<byte>, more: seq<byte>, limit: nat)
    ensures var first := Separate(buffer, limit);
            Separate(buffer + more, limit) == Then(first, Separate(first.rest + more, limit))
    decreases |buffer|
  {
    hide Advertised, Separate;
    if HasFrame(buffer, limit) {
      var n := Advertised(buffer);
      var head, rest := [buffer[LENGTH_BYTES..LENGTH_BYTES + n]], buffer[LENGTH_BYTES + n..];
      FirstFrame(buffer, more, limit);
      FirstFrame(buffer, [], limit);
      assert buffer + [] == buffer && rest + [] == rest;
      SeparateMore(rest, more, limit);
      var a, b := Separate(rest, limit).payloads, Separate(Separate(rest, limit).rest + more, limit).payloads;
      assert head + (a + b) == (head + a) + b;
    } else {
      NoFrame(buffer, limit);
      assert [] + Separate(buffer + more, limit).payloads == Separate(buffer + more, limit).payloads;
    }
  }

  lemma NoFrame(buffer: seq<byte>, limit: nat)
    requires !HasFrame(buffer, limit)
    ensures Separate(buffer, limit) == Cut([], buffer, |buffer| >= LENGTH_BYTES && Advertised(buffer) > limit)
  {
  }

  lemma SamePrefix(buffer: seq<byte>, more: seq<byte>)
    requires |buffer| >= LENGTH_BYTES
    ensures Advertised(buffer + more) == Advertised(buffer)
  {
    assert (buffer + more)[..LENGTH_BYTES] == buffer[..LENGTH_BYTES];
  }

  /** What a run of pushes returns until one of them fails: all payloads, the buffer, and whether one failed. */
  function PushAll(buffer: seq<byte>, chunks: seq<seq<byte>>, limit: nat): Cut
    decreases |chunks|
  {
    if chunks == [] then Cut([], buffer, false)
    else
      var cut := Separate(buffer + chunks[0], limit);
      if cut.tooLarge then Cut([], cut.rest, true) else Then(cut, PushAll(cut.rest, chunks[1..], limit))
  }

  /** However the stream is cut into chunks, a push fails exactly when the whole stream reaches a length
      above the limit, and otherwise payloads and leftover are those of the whole stream. */
  lemma {:induction false} ChunkingIndependence(buffer: seq<byte>, chunks: seq<seq<byte>>, limit: nat)
    requires Separate(buffer, limit) == Cut([], buffer, false)
    ensures var (run, whole) := (PushAll(buffer, chunks, limit), Separate(buffer + Flatten(chunks), limit));
            run.tooLarge == whole.tooLarge && (!run.tooLarge ==> run == whole)
    decreases |chunks|
  {
    hide Separate;
    if chunks == [] {
      assert buffer + Flatten(chunks) == buffer;
    } else {
      var cut := Separate(buffer + chunks[0], limit);
      var rest := Flatten(chunks[1..]);
      assert buffer + Flatten(chunks) == (buffer + chunks[0]) + rest;
      SeparateMore(buffer + chunks[0], rest, limit);
      if cut.tooLarge {
        StuckOnTooLarge(buffer + chunks[0], rest, limit);
      } else {
        RestIsSettled(buffer + chunks[0], limit);
        ChunkingIndependence(cut.rest, chunks[1..], limit);
      }
    }
  }

  /** A reader that pushes one chunk after another until one fails. Whatever the chunks, it gets the frames of the whole
      stream: all of them, or those the chunks before the failing one completed. */
  method PushChunks(d: FrameDecoder, chunks: seq<seq<byte>>) returns (payloads: seq<seq<byte>>, failed: bool)
    requires d.Valid()
    modifies d
    ensures d.Valid()
    ensures Cut(payloads, d.Contents(), failed) == PushAll(old(d.Contents()), chunks, d.maxPayloadLength)
    ensures old(d.Contents()) == [] ==>
              var whole := Separate(Flatten(chunks), d.maxPayloadLength);
              failed == whole.tooLarge && (!failed ==> payloads == whole.payloads && d.Contents() == whole.rest)
  {
    hide Separate, d.Valid, d.Contents;
    payloads, failed := [], false;
    ghost var start := d.Contents();
    ghost var all := PushAll(start, chunks, d.maxPayloadLength);
    assert chunks[0..] == chunks;
    WholeStream(start, chunks, d.maxPayloadLength);
    for k := 0 to |chunks|
      invariant d.Valid()
      invariant var later := PushAll(d.Contents(), chunks[k..], d.maxPayloadLength);
                all == later.(payloads := payloads + later.payloads)
    {
      assert chunks[k..][0] == chunks[k] && chunks[k..][1..] == chunks[k + 1..];
      var r := d.Push(chunks[k]);
      if r.Err? {
        assert payloads + [] == payloads;
        return payloads, true;
      }
      ghost var later := PushAll(d.Contents(), chunks[k + 1..], d.maxPayloadLength);
      assert payloads + (r.value + later.payloads) == (payloads + r.value) + later.payloads;
      payloads := payloads + r.value;
    }
    assert chunks[|chunks|..] == [];
    assert payloads + [] == payloads;
  }

  lemma WholeStream(buffer: seq<byte>, chunks: seq<seq<byte>>, limit: nat)
    ensures buffer == [] ==>
              var (run, whole) := (PushAll(buffer, chunks, limit), Separate(Flatten(chunks), limit));
              run.tooLarge == whole.tooLarge && (!run.tooLarge ==> run == whole)
  {
    if buffer == [] {
      assert [] + Flatten(chunks) == Flatten(chunks);
      ChunkingIndependence([], chunks, limit);
    }
  }

  /** What is left after a separation holds no complete frame. */
  lemma {:induction false} RestIsSettled(buffer: seq<byte>, limit: nat)
    ensures var cut := Separate(buffer, limit); Separate(cut.rest, limit) == Cut([], cut.rest, cut.tooLarge)
    decreases |buffer|
  {
    hide Advertised;
    if |buffer| >= LENGTH_BYTES && Advertised(buffer) <= limit && |buffer| >= LENGTH_BYTES + Advertised(buffer) {
      RestIsSettled(buffer[LENGTH_BYTES + Advertised(buffer)..], limit);
    }
  }

  /** A decoder that failed keeps failing: no further input gets it past the advertised length. */
  lemma StuckOnTooLarge(buffer: seq<byte>, more: seq<byte>, limit: nat)
    requires Separate(buffer, limit).tooLarge
    ensures Separate(Separate(buffer, limit).rest + more, limit) == Cut([], Separate(buffer, limit).rest + more, true)
    ensures Separate(buffer + more, limit).tooLarge
  {
    hide Advertised;
    RestIsSettled(buffer, limit);
    SeparateMore(buffer, more, limit);
    var rest := Separate(buffer, limit).rest;
    if |rest| >= LENGTH_BYTES { SamePrefix(rest, more); }
  }

  // ---- encoding ----

  /** The frames of the payloads, end to end. */
  function Stream(payloads: seq<seq<byte>>): seq<byte> {
    if payloads == [] then [] else U32(|payloads[0]|) + payloads[0] + Stream(payloads[1..])
  }

  lemma FrameHead(payload: seq<byte>, tail: seq<byte>)
    requires |payload| <= MAX_UINT32
    ensures var b := U32(|payload|) + payload + tail;
            Advertised(b) == |payload| && b[LENGTH_BYTES..LENGTH_BYTES + |payload|] == payload && b[LENGTH_BYTES + |payload|..] == tail
  {
    var b := U32(|payload|) + payload + tail;
    assert b[..LENGTH_BYTES] == U32(|payload|);
    BigEndianOfU32(|payload|);
  }

  /** Payloads that EncodeFrame accepts come back exactly, in order and with nothing left over, iff none exceeds the limit. */
  lemma {:induction false} FramesRoundTripIff(payloads: seq<seq<byte>>, limit: nat)
    requires forall k :: 0 <= k < |payloads| ==> EncodeFrame(payloads[k]).Ok?
    ensures Separate(Stream(payloads), limit) == Cut(payloads, [], false) <==> forall k :: 0 <= k < |payloads| ==> |payloads[k]| <= limit
    ensures Separate(Stream(payloads), limit).tooLarge <==> exists k :: 0 <= k < |payloads| && |payloads[k]| > limit
    decreases |payloads|
  {
    hide Advertised, U32;
    if payloads != [] {
      assert EncodeFrame(payloads[0]).Ok?;
      var p, rest := payloads[0], payloads[1..];
      forall k | 0 <= k < |rest| ensures EncodeFrame(rest[k]).Ok? { assert rest[k] == payloads[k + 1]; }
      FrameHead(p, Stream(rest));
      FramesRoundTripIff(rest, limit);
      assert payloads == [p] + rest;
      assert forall k :: 0 <= k < |rest| ==> rest[k] == payloads[k + 1];
      assert forall k :: 1 <= k < |payloads| ==> payloads[k] == rest[k - 1];
    }
  }
}
