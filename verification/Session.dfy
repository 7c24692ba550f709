/** The client session's receive loop, and a whole answer from the server's encoder to the client's result. */
module Session {
  import opened Bytes
  import opened FieldChain
  import opened AppcConversation
  import opened AppcSetup
  import opened ResponseRecords
  import CutResponse
  import CutResponseRoundTrip
  import ClassicResult

  function SessionLimits(allowInitialReceive: bool): AppcConversation.Limits {
    AppcConversation.Limits(0x1000_0000, 65_536, allowInitialReceive, true)
  }

  /** The identity a reply must carry; its sequence number is free. */
  predicate Addressed(m: Message, conversationId: seq<byte>, connectionIndex: nat) {
    && |m.identity.conversationId| == 8 && m.identity.conversationId == conversationId
    && m.identity.communicationIndex == 0 && m.identity.connectionIndex == connectionIndex
  }

  /** State reached, the reply if one arrived, and whether it ended the session. */
  datatype Reply = Reply(state: State, data: Option<seq<byte>>, closed: bool)

  /** What the loop makes of the records the transport delivers. */
  function ReceiveFrom(state: State, pending: Option<Pending>, payloads: seq<seq<byte>>, limits: AppcConversation.Limits,
                       conversationId: seq<byte>, connectionIndex: nat): Reply
    decreases |payloads|
  {
    if payloads == [] then Reply(state, None, false)
    else
      var (next, disposition) := AfterReceive(state, payloads[0]);
      if disposition.Rejected? then Reply(next, None, false)
      else
        var terminal := disposition.value == NormalDeallocation;
        var o := Push(limits, pending, payloads[0], terminal);
        if o.reply.Rejected? then Reply(next, None, false)
        else if o.reply.value == [] then ReceiveFrom(next, o.pending, payloads[1..], limits, conversationId, connectionIndex)
        else if |o.reply.value| != 1 || o.pending.Some? then Reply(next, None, false)
        else if !Addressed(o.reply.value[0], conversationId, connectionIndex) then Reply(next, None, false)
        else if terminal then Reply(next, Some(o.reply.value[0].data), true)
        else if next == ResponsePending then Reply(Ready, Some(o.reply.value[0].data), false)
        else Reply(Closed, None, false)
  }

  method ReceiveMessage(setup: ClientSetup, payloads: seq<seq<byte>>, allowInitialReceive: bool, conversationId: seq<byte>, connectionIndex: nat)
    returns (r: Reply)
    modifies setup
    ensures r == ReceiveFrom(old(setup.state), None, payloads, SessionLimits(allowInitialReceive), conversationId, connectionIndex)
    ensures setup.state == r.state
  {
    hide Push, AfterReceive, Addressed;
    var limits := SessionLimits(allowInitialReceive);
    var decoder := new ConversationDecoder(limits);
    assert payloads[0..] == payloads;
    for k := 0 to |payloads|
      invariant decoder.Valid() && decoder.limits == limits && fresh(decoder)
      invariant ReceiveFrom(setup.state, decoder.pending, payloads[k..], limits, conversationId, connectionIndex)
                == ReceiveFrom(old(setup.state), None, payloads, limits, conversationId, connectionIndex)
    {
      assert payloads[k..][0] == payloads[k] && payloads[k..][1..] == payloads[k + 1..];
      var disposition := setup.Received(payloads[k]);
      if disposition.Rejected? {
        return Reply(setup.state, None, false);
      }
      var terminal := disposition.value == NormalDeallocation;
      var messages := decoder.PushRecord(payloads[k], terminal);
      if messages.Rejected? {
        return Reply(setup.state, None, false);
      }
      if messages.value == [] {
        continue;
      }
      if |messages.value| != 1 {
        return Reply(setup.state, None, false);
      }
      var finished := decoder.Finish();
      if finished.Rejected? {
        return Reply(setup.state, None, false);
      }
      if !Addressed(messages.value[0], conversationId, connectionIndex) {
        return Reply(setup.state, None, false);
      }
      if terminal {
        return Reply(setup.state, Some(messages.value[0].data), true);
      }
      var complete := setup.ResponseComplete();
      if complete.Rejected? {
        return Reply(setup.state, None, false);
      }
      return Reply(setup.state, Some(messages.value[0].data), false);
    }
    assert payloads[|payloads|..] == [];
    r := Reply(setup.state, None, false);
  }

  /** A push delivers at most one message, and then nothing stays pending. */
  lemma OneMessage(limits: AppcConversation.Limits, pending: Option<Pending>, payload: seq<byte>, terminal: bool)
    ensures var o := Push(limits, pending, payload, terminal);
            o.reply.Ok? ==> |o.reply.value| <= 1 && (o.reply.value != [] ==> o.pending == None)
  {
  }

  /** The checks for a second message and for leftovers never fire: a reply is refused for its address or its state alone. */
  lemma ReplyDecided(state: State, pending: Option<Pending>, payloads: seq<seq<byte>>, limits: AppcConversation.Limits,
                     conversationId: seq<byte>, connectionIndex: nat)
    requires payloads != [] && AfterReceive(state, payloads[0]).1.Ok?
    ensures var (next, disposition) := AfterReceive(state, payloads[0]);
            var terminal := disposition.value == NormalDeallocation;
            var o := Push(limits, pending, payloads[0], terminal);
            o.reply.Ok? && o.reply.value != [] ==>
              var r := ReceiveFrom(state, pending, payloads, limits, conversationId, connectionIndex);
              r.data == (if Addressed(o.reply.value[0], conversationId, connectionIndex) && (terminal || next == ResponsePending)
                         then Some(o.reply.value[0].data) else None)
  {
    hide Push, AfterReceive, Addressed;
    OneMessage(limits, pending, payloads[0], AfterReceive(state, payloads[0]).1.value == NormalDeallocation);
  }

  // ---- a whole answer ----

  /** A response record is accepted while a response is pending. */
  lemma RecordAccepted(records: seq<seq<byte>>, cut: seq<byte>, conversationId: seq<byte>, uid: nat, commConn: seq<byte>, k: nat)
    requires RecordsOf(records, cut, conversationId, uid, commConn) && |conversationId| == 8 && k < |records|
    ensures AfterReceive(ResponsePending, records[k]) == (ResponsePending, Ok(Accepted))
  {
    hide ResponseRecords.Framed, DecodeHeader, Pieces;
    FramedHeader(records[k], Pieces(cut)[k], conversationId, uid, if k == 0 then SAP_SEND else RECEIVE, k == |records| - 1, commConn);
  }

  lemma {:induction false} RecordsReceived(limits: AppcConversation.Limits, cut: seq<byte>, records: seq<seq<byte>>, conversationId: seq<byte>,
                                           uid: nat, callerInfo: seq<byte>, k: nat)
    requires RecordsOf(records, cut, conversationId, uid, ReplyIndices(callerInfo)) && |conversationId| == 8
    requires WithinLimits(limits, |cut|, |records|) && k < |records|
    ensures ReceiveFrom(ResponsePending, PendingAfter(limits, records[..k]), records[k..], limits, conversationId, CallerConnection(callerInfo))
            == Reply(Ready, Some(cut), false)
    decreases |records| - k
  {
    hide RecordsOf, AfterReceive, Push;
    RecordAccepted(records, cut, conversationId, uid, ReplyIndices(callerInfo), k);
    SplitThenReassemble(limits, cut, records, conversationId, uid, callerInfo);
    assert records[k..][0] == records[k] && records[k..][1..] == records[k + 1..];
    if k < |records| - 1 {
      assert records[..k + 1][..k] == records[..k];
      RecordsReceived(limits, cut, records, conversationId, uid, callerInfo, k + 1);
    }
  }

  /** An answer over the limits is never delivered, and the session goes on waiting. */
  lemma {:induction false} RecordsRefused(limits: AppcConversation.Limits, cut: seq<byte>, records: seq<seq<byte>>, conversationId: seq<byte>,
                                          uid: nat, callerInfo: seq<byte>, k: nat)
    requires RecordsOf(records, cut, conversationId, uid, ReplyIndices(callerInfo)) && |conversationId| == 8
    requires !WithinLimits(limits, |cut|, |records|)
    requires k < |records| && k <= |Pieces(cut)| && WithinLimits(limits, |Flatten(Pieces(cut)[..k])|, k)
    ensures ReceiveFrom(ResponsePending, PendingAfter(limits, records[..k]), records[k..], limits, conversationId, CallerConnection(callerInfo))
            == Reply(ResponsePending, None, false)
    decreases |records| - k
  {
    hide RecordsOf, AfterReceive, Push, Pieces, Flatten, WithinLimits;
    RecordAccepted(records, cut, conversationId, uid, ReplyIndices(callerInfo), k);
    RecordsOverflow(limits, cut, records, conversationId, uid, callerInfo, k);
    assert records[k..][0] == records[k] && records[k..][1..] == records[k + 1..];
    if k + 1 <= |Pieces(cut)| && WithinLimits(limits, |Flatten(Pieces(cut)[..k + 1])|, k + 1) {
      assert records[..k + 1][..k] == records[..k];
      RecordsRefused(limits, cut, records, conversationId, uid, callerInfo, k + 1);
    }
  }

  /** From the server's encoder through its records to the session: unless the answer is over the session's limit, the
      session gets the very bytes and is ready for the next call. The result is the server's answer exactly when that
      answer is within the limit and returnable. */
  lemma AnswerArrives(a: CutResponse.Answer, records: seq<seq<byte>>, conversationId: seq<byte>, uid: nat, callerInfo: seq<byte>, allowInitialReceive: bool)
    requires CutResponse.Accepted(a) && |conversationId| == 8
    ensures AllEncodable(CutResponse.ResponseFields(a))
    ensures var data := CutResponse.Framed(CutResponse.ResponseFields(a));
            RecordsOf(records, data, conversationId, uid, ReplyIndices(callerInfo)) ==>
              var reply := ReceiveFrom(ResponsePending, None, records, SessionLimits(allowInitialReceive), conversationId, CallerConnection(callerInfo));
              && reply == (if |data| <= 0x1000_0000 then Reply(Ready, Some(data), false) else Reply(ResponsePending, None, false))
              && ((reply.data.Some? && CutResponseRoundTrip.ClientResult(reply.data.value) == Some(CutResponseRoundTrip.Expected(a)))
                  <==> |data| <= 0x1000_0000 && CutResponseRoundTrip.Returnable(a))
  {
    hide ReceiveFrom, RecordsOf, CutResponse.Framed, CutResponseRoundTrip.Returnable, CutResponseRoundTrip.ClientResult, CutResponse.Accepted, Pieces, Flatten, Within;
    CutResponseRoundTrip.ResponseRoundTripIff(a);
    var data := CutResponse.Framed(CutResponse.ResponseFields(a));
    var limits := SessionLimits(allowInitialReceive);
    if RecordsOf(records, data, conversationId, uid, ReplyIndices(callerInfo)) {
      SomeRecords(records, data, conversationId, uid, ReplyIndices(callerInfo));
      assert records[..0] == [] && records[0..] == records;
      assert PendingAfter(limits, []) == None;
      if |data| <= 0x1000_0000 {
        RecordsReceived(limits, data, records, conversationId, uid, callerInfo, 0);
      } else {
        assert Pieces(data)[..0] == [];
        EmptyHeld();
        RecordsRefused(limits, data, records, conversationId, uid, callerInfo, 0);
      }
    }
  }

  lemma SomeRecords(records: seq<seq<byte>>, cut: seq<byte>, conversationId: seq<byte>, uid: nat, commConn: seq<byte>)
    requires RecordsOf(records, cut, conversationId, uid, commConn)
    ensures 0 < |records| <= 1 + |cut| / 28_000 + 1
  {
    hide ResponseRecords.Framed, Pieces;
    PiecesFacts(cut);
  }
}
