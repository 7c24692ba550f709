/** The server's side of the same conversation: splitting a response into records. */
module ResponseRecords {
  import opened Bytes
  import opened AppcConversation

  const MAX_RECORD_DATA := 28000
  /** The eight-byte trailer that must not be cut. */
  const TRAILER_LENGTH := 8

  // ---- cutting the response ----

  /** A last slice too short for the trailer takes bytes from the one before it. */
  function ToppedUp(slices: seq<seq<byte>>): seq<seq<byte>> {
    var n := |slices|;
    if n < 2 || |slices[n - 1]| >= TRAILER_LENGTH || |slices[n - 2]| < TRAILER_LENGTH then slices
    else
      var prev, last := slices[n - 2], slices[n - 1];
      var keep := |prev| - (TRAILER_LENGTH - |last|);
      slices[..n - 2] + [prev[..keep], prev[keep..] + last]
  }

  function Pieces(cut: seq<byte>): seq<seq<byte>> {
    if |cut| <= MAX_RECORD_DATA then [cut] else ToppedUp(Slices(cut, MAX_RECORD_DATA))
  }

  /** Pieces lose nothing, none is larger than a record, and several never end in less than the trailer. */
  lemma PiecesFacts(cut: seq<byte>)
    ensures Flatten(Pieces(cut)) == cut
    ensures |Pieces(cut)| == if |cut| <= MAX_RECORD_DATA then 1 else (|cut| + MAX_RECORD_DATA - 1) / MAX_RECORD_DATA
    ensures forall k :: 0 <= k < |Pieces(cut)| ==> |Pieces(cut)[k]| <= MAX_RECORD_DATA
    ensures |Pieces(cut)| > 1 ==> |Pieces(cut)[|Pieces(cut)| - 1]| >= TRAILER_LENGTH
  {
    if |cut| <= MAX_RECORD_DATA {
      FlattenOne(cut);
    } else {
      SlicesJoin(cut, MAX_RECORD_DATA);
      SlicesCount(cut);
      ToppedUpFacts(Slices(cut, MAX_RECORD_DATA));
    }
  }

  lemma {:induction false} SlicesCount(cut: seq<byte>)
    ensures |Slices(cut, MAX_RECORD_DATA)| == (|cut| + MAX_RECORD_DATA - 1) / MAX_RECORD_DATA
    decreases |cut|
  {
    if |cut| > MAX_RECORD_DATA {
      var rest := cut[MAX_RECORD_DATA..];
      SlicesCount(rest);
      assert (|cut| + MAX_RECORD_DATA - 1) / MAX_RECORD_DATA == 1 + (|rest| + MAX_RECORD_DATA - 1) / MAX_RECORD_DATA;
    }
  }

  lemma ToppedUpFacts(slices: seq<seq<byte>>)
    requires |slices| > 1
    requires forall k :: 0 <= k < |slices| ==> 0 < |slices[k]| <= MAX_RECORD_DATA
    requires forall k :: 0 <= k < |slices| - 1 ==> |slices[k]| == MAX_RECORD_DATA
    ensures Flatten(ToppedUp(slices)) == Flatten(slices) && |ToppedUp(slices)| == |slices|
    ensures forall k :: 0 <= k < |slices| ==> |ToppedUp(slices)[k]| <= MAX_RECORD_DATA
    ensures |ToppedUp(slices)[|slices| - 1]| >= TRAILER_LENGTH
  {
    var n := |slices|;
    var prev, last := slices[n - 2], slices[n - 1];
    if |last| < TRAILER_LENGTH {
      var keep := |prev| - (TRAILER_LENGTH - |last|);
      var tail := [prev[..keep], prev[keep..] + last];
      assert slices == slices[..n - 2] + [prev, last];
      FlattenSplit(slices[..n - 2], [prev, last]);
      FlattenSplit(slices[..n - 2], tail);
      FlattenTwo(prev, last);
      FlattenTwo(prev[..keep], prev[keep..] + last);
      assert prev == prev[..keep] + prev[keep..];
      assert prev[..keep] + (prev[keep..] + last) == prev + last;
    }
  }

  lemma FlattenTwo(a: seq<byte>, b: seq<byte>)
    ensures Flatten([a, b]) == a + b
  {
    assert [a, b][1..] == [b];
    FlattenOne(b);
  }

  /** Slicing and topping up. */
  method CutPieces(cut: seq<byte>) returns (pieces: seq<seq<byte>>)
    requires |cut| > MAX_RECORD_DATA
    ensures pieces == Pieces(cut)
  {
    hide Slices, Flatten;
    pieces := CutSlices(cut, MAX_RECORD_DATA);
    SlicesJoin(cut, MAX_RECORD_DATA);
    SlicesCount(cut);
    var n := |pieces|;
    if |pieces[n - 1]| < TRAILER_LENGTH {
      var prev, last := pieces[n - 2], pieces[n - 1];
      var take := TRAILER_LENGTH - |last|;
      pieces := pieces[n - 1 := prev[|prev| - take..] + last];
      pieces := pieces[n - 2 := prev[..|prev| - take]];
    }
  }

  // ---- one record ----

  function Patch(s: seq<byte>, off: nat, bytes: seq<byte>): (r: seq<byte>)
    requires off + |bytes| <= |s|
    ensures |r| == |s|
  {
    s[..off] + bytes + s[off + |bytes|..]
  }

  lemma PatchPlaces(s: seq<byte>, off: nat, bytes: seq<byte>)
    requires off + |bytes| <= |s|
    ensures At(Patch(s, off, bytes), off, bytes)
    ensures forall o: nat, c: seq<byte> {:trigger At(Patch(s, off, bytes), o, c)} ::
              At(s, o, c) && (o + |c| <= off || off + |bytes| <= o) ==> At(Patch(s, off, bytes), o, c)
  {
    var r := Patch(s, off, bytes);
    forall o: nat, c: seq<byte> | At(s, o, c) && (o + |c| <= off || off + |bytes| <= o) ensures At(r, o, c) {
      assert r[o..o + |c|] == s[o..o + |c|];
    }
  }

  /** Writes bytes at off; whatever stands clear of them stays. */
  method Put(a: array<byte>, off: nat, bytes: seq<byte>)
    requires off + |bytes| <= a.Length
    modifies a
    ensures At(a[..], off, bytes)
    ensures forall o: nat, c: seq<byte> {:trigger At(a[..], o, c)} ::
              At(old(a[..]), o, c) && (o + |c| <= off || off + |bytes| <= o) ==> At(a[..], o, c)
  {
    hide At;
    for k := 0 to |bytes|
      invariant forall j :: 0 <= j < a.Length ==> a[j] == if off <= j < off + k then bytes[j - off] else old(a[j])
    {
      a[off + k] := bytes[k];
    }
    assert a[..] == Patch(old(a[..]), off, bytes);
    PatchPlaces(old(a[..]), off, bytes);
  }

  /** What copy writes into an eight-byte field. */
  function Field8(id: seq<byte>): seq<byte> { id[..Min(8, |id|)] }

  ghost predicate CommonFields(rec: seq<byte>, uid: nat, fn: byte) {
    && At(rec, 0, [PROTOCOL_VERSION, fn, 2]) && At(rec, 3, [0])
    && At(rec, 4, U16(uid)) && At(rec, 6, U16(7)) && At(rec, 8, Zeros(4))
    && At(rec, 12, U32(0x1_0000)) && At(rec, 16, [1]) && At(rec, 17, U32(0xffff_ffff)) && At(rec, 21, [2])
    && At(rec, 22, U32(1))
  }

  ghost predicate InfoFields(rec: seq<byte>, final: bool) {
    && At(rec, 26, if final then U16(TRAILER_LENGTH) else Zeros(2)) && At(rec, 28, Zeros(2))
    && At(rec, 30, if final then [5, 0x0c] else [1, 8])
    && At(rec, 32, Zeros(8))
  }

  ghost predicate ConversationField(rec: seq<byte>, conversationId: seq<byte>) {
    At(rec, 40, Field8(conversationId)) && At(rec, 40 + |Field8(conversationId)|, Zeros(8 - |Field8(conversationId)|))
  }

  ghost predicate OperationFields(rec: seq<byte>, length: nat, commConn: seq<byte>) {
    && At(rec, 48, U32(0x6d60)) && At(rec, 52, U32(2)) && At(rec, 56, U32(length)) && At(rec, 60, U32(1)) && At(rec, 64, Zeros(4))
    && At(rec, 68, [0, 0x34, 0x31, 0x30, 0x33]) && At(rec, 73, Zeros(3))
    && At(rec, 76, if |commConn| == 4 then commConn else Zeros(4))
  }

  /** Every byte of a response record. */
  ghost predicate Framed(rec: seq<byte>, data: seq<byte>, conversationId: seq<byte>, uid: nat, fn: byte, final: bool, commConn: seq<byte>) {
    && |rec| == RECORD_HEADER_LENGTH + |data|
    && CommonFields(rec, uid, fn) && InfoFields(rec, final) && ConversationField(rec, conversationId)
    && OperationFields(rec, |data|, commConn)
    && At(rec, RECORD_HEADER_LENGTH, data)
  }

  lemma ZerosWithin(s: seq<byte>, o: nat, n: nat)
    requires At(s, o, Zeros(n))
    ensures forall p: nat, m: nat {:trigger At(s, p, Zeros(m))} :: o <= p && p + m <= o + n ==> At(s, p, Zeros(m))
  {
    assert forall k :: o <= k < o + n ==> s[k] == s[o..o + n][k - o];
  }

  lemma OneZero()
    ensures Zeros(1) == [0]
  {
  }

  method PutCommon(rec: array<byte>, uid: nat, fn: byte)
    requires At(rec[..], 0, Zeros(26))
    modifies rec
    ensures CommonFields(rec[..], uid, fn)
    ensures forall o: nat, c: seq<byte> {:trigger At(rec[..], o, c)} :: At(old(rec[..]), o, c) && 26 <= o ==> At(rec[..], o, c)
  {
    hide U16, U32, Zeros;
    Room(rec[..], 0, Zeros(26));
    ZerosWithin(rec[..], 0, 26);
    OneZero();
    hide At;
    Put(rec, 0, [PROTOCOL_VERSION, fn, 2]);
    Put(rec, 4, U16(uid));
    Put(rec, 6, U16(7));
    Put(rec, 12, U32(0x1_0000));
    Put(rec, 16, [1]);
    Put(rec, 17, U32(0xffff_ffff));
    Put(rec, 21, [2]);
    Put(rec, 22, U32(1));
  }

  lemma Room(s: seq<byte>, o: nat, c: seq<byte>)
    requires At(s, o, c)
    ensures o + |c| <= |s|
  {
  }

  method PutInfo(rec: array<byte>, final: bool)
    requires At(rec[..], 26, Zeros(14))
    modifies rec
    ensures InfoFields(rec[..], final)
    ensures forall o: nat, c: seq<byte> {:trigger At(rec[..], o, c)} ::
              At(old(rec[..]), o, c) && (o + |c| <= 26 || 40 <= o) ==> At(rec[..], o, c)
  {
    hide U16, U32, Zeros, At;
    Room(rec[..], 26, Zeros(14));
    ZerosWithin(rec[..], 26, 14);
    if final {
      Put(rec, 26, U16(TRAILER_LENGTH));
      Put(rec, 30, [5, 0x0c]);
    } else {
      Put(rec, 30, [1, 8]);
    }
  }

  method PutOperation(rec: array<byte>, length: nat, commConn: seq<byte>)
    requires At(rec[..], 48, Zeros(32))
    modifies rec
    ensures OperationFields(rec[..], length, commConn)
    ensures forall o: nat, c: seq<byte> {:trigger At(rec[..], o, c)} ::
              At(old(rec[..]), o, c) && (o + |c| <= 48 || 80 <= o) ==> At(rec[..], o, c)
  {
    hide U16, U32, Zeros, At;
    Room(rec[..], 48, Zeros(32));
    ZerosWithin(rec[..], 48, 32);
    Put(rec, 48, U32(0x6d60));
    Put(rec, 52, U32(2));
    Put(rec, 56, U32(length));
    Put(rec, 60, U32(1));
    Put(rec, 68, [0, 0x34, 0x31, 0x30, 0x33]);
    if |commConn| == 4 {
      Put(rec, 76, commConn);
    }
  }

  /** Fills the record in place. */
  method BuildEclipseRecord(data: seq<byte>, conversationId: seq<byte>, uid: nat, fn: byte, final: bool, commConn: seq<byte>)
    returns (rec: array<byte>)
    ensures fresh(rec) && Framed(rec[..], data, conversationId, uid, fn, final, commConn)
  {
    hide U16, U32, Zeros, At;
    rec := new byte[RECORD_HEADER_LENGTH + |data|](_ => 0);
    AllZero(rec[..]);
    ZerosWithin(rec[..], 0, RECORD_HEADER_LENGTH + |data|);
    PutCommon(rec, uid, fn);
    PutInfo(rec, final);
    var id := Field8(conversationId);
    Put(rec, 40, id);
    PutOperation(rec, |data|, commConn);
    Put(rec, RECORD_HEADER_LENGTH, data);
  }

  lemma AllZero(s: seq<byte>)
    requires forall k :: 0 <= k < |s| ==> s[k] == 0
    ensures At(s, 0, Zeros(|s|))
  {
  }

  // ---- the whole answer ----

  ghost predicate RecordsOf(records: seq<seq<byte>>, cut: seq<byte>, conversationId: seq<byte>, uid: nat, commConn: seq<byte>) {
    && |records| == |Pieces(cut)|
    && forall k :: 0 <= k < |records| ==>
         Framed(records[k], Pieces(cut)[k], conversationId, uid, if k == 0 then SAP_SEND else RECEIVE, k == |records| - 1, commConn)
  }

  method EclipseRecords(cut: seq<byte>, conversationId: seq<byte>, uid: nat, commConn: seq<byte>) returns (records: seq<seq<byte>>)
    ensures RecordsOf(records, cut, conversationId, uid, commConn)
  {
    hide Framed;
    if |cut| <= MAX_RECORD_DATA {
      var rec := BuildEclipseRecord(cut, conversationId, uid, SAP_SEND, true, commConn);
      return [rec[..]];
    }
    var pieces := CutPieces(cut);
    records := [];
    for i := 0 to |pieces|
      invariant |records| == i
      invariant forall k :: 0 <= k < i ==>
                  Framed(records[k], pieces[k], conversationId, uid, if k == 0 then SAP_SEND else RECEIVE, k == |pieces| - 1, commConn)
    {
      var final := i == |pieces| - 1;
      var fn := if i > 0 then RECEIVE else SAP_SEND;
      var rec := BuildEclipseRecord(pieces[i], conversationId, uid, fn, final, commConn);
      records := records + [rec[..]];
    }
  }

  /** Communication index zero, and the connection index the call came in on. */
  function ReplyIndices(callerInfo: seq<byte>): seq<byte> {
    if |callerInfo| == 4 then [0, 0] + callerInfo[2..4] else [0, 0, 0, 0]
  }

  method ResponseRecordsFor(cut: seq<byte>, conversationId: seq<byte>, uid: nat, callerInfo: seq<byte>)
    returns (records: seq<seq<byte>>)
    ensures RecordsOf(records, cut, conversationId, uid, ReplyIndices(callerInfo))
  {
    var commConn: seq<byte> := [0, 0, 0, 0];
    if |callerInfo| == 4 {
      commConn := commConn[..2] + callerInfo[2..4];
    }
    assert commConn == ReplyIndices(callerInfo);
    records := EclipseRecords(cut, conversationId, uid, commConn);
  }

  // ---- reassembly undoes it ----

  function ReplyIdentity(conversationId: seq<byte>, commConn: seq<byte>): Identity
    requires |commConn| == 4
  {
    Identity(conversationId, 1, BigEndian(commConn[..2]), BigEndian(commConn[2..]))
  }

  lemma FramedHeader(rec: seq<byte>, data: seq<byte>, conversationId: seq<byte>, uid: nat, fn: byte, final: bool, commConn: seq<byte>)
    requires Framed(rec, data, conversationId, uid, fn, final, commConn) && |conversationId| == 8
    ensures IsRecord(rec)
    ensures DecodeHeader(rec) == Ok(Header(fn, 1, if final then 0x0c else 8, 0, 0, conversationId))
    ensures EndOfMessage(rec[31]) == final
  {
    hide U16, U32, Zeros, BigEndian;
    AtIndex(rec, 0, [PROTOCOL_VERSION, fn, 2], 0);
    AtIndex(rec, 0, [PROTOCOL_VERSION, fn, 2], 1);
    BigEndianOfU32(1);
    AtIndex(rec, 30, if final then [5, 0x0c] else [1, 8], 1);
    ZerosWithin(rec, 32, 8);
    AtSlice(rec, 32, Zeros(4));
    AtSlice(rec, 36, Zeros(4));
    ZeroValue();
    assert Field8(conversationId) == conversationId;
    AtSlice(rec, 40, conversationId);
  }

  lemma ZeroValue()
    ensures BigEndian(Zeros(4)) == 0
  {
    BigEndianOfU32(0);
    assert U32(0) == Zeros(4);
  }

  lemma FramedInfo(rec: seq<byte>, data: seq<byte>, conversationId: seq<byte>, uid: nat, fn: byte, final: bool, commConn: seq<byte>)
    requires Framed(rec, data, conversationId, uid, fn, final, commConn) && |commConn| == 4 && |data| <= MAX_RECORD_DATA
    ensures RecordData(rec) == data
    ensures DecodeOperationInfo(rec[COMMON_HEADER_LENGTH..RECORD_HEADER_LENGTH])
            == OperationInfo(|data|, BigEndian(commConn[..2]), BigEndian(commConn[2..]))
  {
    hide BigEndian, CommonFields, InfoFields, ConversationField, Zeros;
    var info := rec[COMMON_HEADER_LENGTH..RECORD_HEADER_LENGTH];
    AtSlice(rec, 56, U32(|data|));
    LowHalf(|data|);
    SubSlice(rec, 48, 80, 10, 12);
    SubSlice(rec, 56, 60, 2, 4);
    AtSlice(rec, 76, commConn);
    SubSlice(rec, 48, 80, 28, 30);
    SubSlice(rec, 48, 80, 30, 32);
    assert commConn[..2] == commConn[0..2] && commConn[2..] == commConn[2..4];
    SubSlice(rec, 76, 80, 0, 2);
    SubSlice(rec, 76, 80, 2, 4);
    assert rec[RECORD_HEADER_LENGTH..] == data;
  }

  lemma SubSlice(s: seq<byte>, a: nat, b: nat, c: nat, d: nat)
    requires a <= b <= |s| && c <= d <= b - a
    ensures s[a..b][c..d] == s[a + c..a + d]
  {
    var t := s[a..b];
    forall k | 0 <= k < d - c ensures t[c..d][k] == s[a + c..a + d][k] {
      assert t[c..d][k] == t[c + k];
    }
  }

  lemma LowHalf(n: nat)
    requires n < 0x1_0000
    ensures BigEndian(U32(n)[2..4]) == n
  {
    BigEndianOfU16(n);
    assert U32(n)[2..4] == U16(n);
  }

  /** The decoder's state after these records. */
  function PendingAfter(limits: Limits, records: seq<seq<byte>>): Option<Pending> {
    if records == [] then None
    else Push(limits, PendingAfter(limits, records[..|records| - 1]), records[|records| - 1], false).pending
  }

  function HeldPieces(pieces: seq<seq<byte>>, k: nat, identity: Identity): Option<Pending>
    requires k <= |pieces|
  {
    if k == 0 then None else Some(Pending(pieces[..k], identity, |Flatten(pieces[..k])|, k))
  }

  lemma PrefixLength(pieces: seq<seq<byte>>, k: nat)
    requires k < |pieces|
    ensures |Flatten(pieces[..k])| + |pieces[k]| <= |Flatten(pieces)|
    ensures Flatten(pieces[..k] + [pieces[k]]) == Flatten(pieces[..k]) + pieces[k]
  {
    FlattenSplit(pieces[..k], [pieces[k]]);
    FlattenOne(pieces[k]);
    FlattenSplit(pieces[..k] + [pieces[k]], pieces[k + 1..]);
    assert pieces == pieces[..k] + [pieces[k]] + pieces[k + 1..];
  }

  /** One record of the answer, pushed when those before it are held. */
  lemma RecordJoins(limits: Limits, pieces: seq<seq<byte>>, k: nat, rec: seq<byte>, conversationId: seq<byte>, uid: nat, commConn: seq<byte>)
    requires k < |pieces| && |conversationId| == 8 && |commConn| == 4 && |pieces[k]| <= MAX_RECORD_DATA
    requires Framed(rec, pieces[k], conversationId, uid, if k == 0 then SAP_SEND else RECEIVE, k == |pieces| - 1, commConn)
    ensures var identity := ReplyIdentity(conversationId, commConn);
            Push(limits, HeldPieces(pieces, k, identity), rec, false) ==
            if !WithinLimits(limits, |Flatten(pieces[..k + 1])|, k + 1) then Outcome(Rejected, HeldPieces(pieces, k, identity))
            else if k == |pieces| - 1 then Outcome(Ok([Message(Flatten(pieces), identity, |pieces|)]), None)
            else Outcome(Ok([]), HeldPieces(pieces, k + 1, identity))
  {
    hide Framed, DecodeHeader, DecodeOperationInfo, BigEndian, EndOfMessage, Flatten;
    var identity := ReplyIdentity(conversationId, commConn);
    var fn, final := if k == 0 then SAP_SEND else RECEIVE, k == |pieces| - 1;
    FramedHeader(rec, pieces[k], conversationId, uid, fn, final, commConn);
    FramedInfo(rec, pieces[k], conversationId, uid, fn, final, commConn);
    PrefixLength(pieces, k);
    EmptyHeld();
    var held := HeldPieces(pieces, k, identity);
    assert Held(held) == pieces[..k];
    assert pieces[..k] + [pieces[k]] == pieces[..k + 1];
    assert pieces[..|pieces|] == pieces;
  }

  lemma EmptyHeld()
    ensures Flatten([]) == []
  {
  }

  /** A longer prefix is no shorter. */
  lemma PrefixWithin(limits: Limits, pieces: seq<seq<byte>>, j: nat, k: nat)
    requires j <= k <= |pieces| && WithinLimits(limits, |Flatten(pieces[..k])|, k)
    ensures WithinLimits(limits, |Flatten(pieces[..j])|, j)
  {
    hide Flatten;
    assert pieces[..k] == pieces[..j] + pieces[j..k];
    FlattenSplit(pieces[..j], pieces[j..k]);
  }

  lemma {:induction false} PrefixHeld(limits: Limits, cut: seq<byte>, records: seq<seq<byte>>, k: nat, conversationId: seq<byte>, uid: nat, commConn: seq<byte>)
    requires RecordsOf(records, cut, conversationId, uid, commConn) && |conversationId| == 8 && |commConn| == 4
    requires k < |records| && k <= |Pieces(cut)| && WithinLimits(limits, |Flatten(Pieces(cut)[..k])|, k)
    ensures PendingAfter(limits, records[..k]) == HeldPieces(Pieces(cut), k, ReplyIdentity(conversationId, commConn))
  {
    hide Framed, Push, Pieces, ReplyIdentity, Flatten;
    if k > 0 {
      PrefixWithin(limits, Pieces(cut), k - 1, k);
      PrefixHeld(limits, cut, records, k - 1, conversationId, uid, commConn);
      assert records[..k][..k - 1] == records[..k - 1];
      PiecesFacts(cut);
      RecordJoins(limits, Pieces(cut), k - 1, records[k - 1], conversationId, uid, commConn);
    }
  }

  /** The records of an answer within the limits, pushed in order: nothing until the last, then the one
      message, equal to the answer and carrying the identity the caller checks. */
  lemma SplitThenReassemble(limits: Limits, cut: seq<byte>, records: seq<seq<byte>>, conversationId: seq<byte>, uid: nat, callerInfo: seq<byte>)
    requires RecordsOf(records, cut, conversationId, uid, ReplyIndices(callerInfo)) && |conversationId| == 8
    requires WithinLimits(limits, |cut|, |records|)
    ensures forall k :: 0 <= k < |records| - 1 ==> Push(limits, PendingAfter(limits, records[..k]), records[k], false).reply == Ok([])
    ensures var n := |records|;
            n > 0 && Push(limits, PendingAfter(limits, records[..n - 1]), records[n - 1], false)
                     == Outcome(Ok([Message(cut, Identity(conversationId, 1, 0, CallerConnection(callerInfo)), n)]), None)
  {
    hide Framed, Push, Pieces, BigEndian, PendingAfter, Flatten;
    var commConn, n := ReplyIndices(callerInfo), |records|;
    PiecesFacts(cut);
    assert Pieces(cut)[..n] == Pieces(cut);
    IndexValues(callerInfo);
    forall k | 0 <= k < n
      ensures Push(limits, PendingAfter(limits, records[..k]), records[k], false) ==
              if k == n - 1 then Outcome(Ok([Message(cut, ReplyIdentity(conversationId, commConn), n)]), None)
              else Outcome(Ok([]), HeldPieces(Pieces(cut), k + 1, ReplyIdentity(conversationId, commConn)))
    {
      PrefixWithin(limits, Pieces(cut), k, n);
      PrefixWithin(limits, Pieces(cut), k + 1, n);
      PrefixHeld(limits, cut, records, k, conversationId, uid, commConn);
      RecordJoins(limits, Pieces(cut), k, records[k], conversationId, uid, commConn);
    }
    assert ReplyIdentity(conversationId, commConn) ==
           Identity(conversationId, 1, 0, CallerConnection(callerInfo));
  }

  /** A record that takes the answer over a limit is refused; before that each one is held. */
  lemma RecordsOverflow(limits: Limits, cut: seq<byte>, records: seq<seq<byte>>, conversationId: seq<byte>, uid: nat, callerInfo: seq<byte>, k: nat)
    requires RecordsOf(records, cut, conversationId, uid, ReplyIndices(callerInfo)) && |conversationId| == 8
    requires !WithinLimits(limits, |cut|, |records|)
    requires k < |records| && k <= |Pieces(cut)| && WithinLimits(limits, |Flatten(Pieces(cut)[..k])|, k)
    ensures var r := Push(limits, PendingAfter(limits, records[..k]), records[k], false).reply;
            if k + 1 <= |Pieces(cut)| && WithinLimits(limits, |Flatten(Pieces(cut)[..k + 1])|, k + 1) then k + 1 < |records| && r == Ok([])
            else r == Rejected
  {
    hide Framed, Push, Pieces, BigEndian, PendingAfter, Flatten;
    var commConn, n := ReplyIndices(callerInfo), |records|;
    PiecesFacts(cut);
    IndexValues(callerInfo);
    assert Pieces(cut)[..n] == Pieces(cut);
    PrefixHeld(limits, cut, records, k, conversationId, uid, commConn);
    RecordJoins(limits, Pieces(cut), k, records[k], conversationId, uid, commConn);
  }

  function CallerConnection(callerInfo: seq<byte>): nat {
    if |callerInfo| == 4 then BigEndian(callerInfo[2..4]) else 0
  }

  lemma IndexValues(callerInfo: seq<byte>)
    ensures var r := ReplyIndices(callerInfo);
            && |r| == 4 && BigEndian(r[..2]) == 0
            && BigEndian(r[2..]) == CallerConnection(callerInfo)
  {
    var r := ReplyIndices(callerInfo);
    BigEndianOfU16(0);
    assert U16(0) == [0, 0] && r[..2] == [0, 0];
    if |callerInfo| == 4 { assert r[2..] == callerInfo[2..4]; } else { assert r[2..] == [0, 0]; }
  }
}
