/** Reassembly of RFC application messages from APPC data records. */
module AppcConversation {
  import opened Bytes

  const COMMON_HEADER_LENGTH := 48
  const RECORD_HEADER_LENGTH := 80
  const PROTOCOL_VERSION: byte := 0x06
  const SAP_SEND: byte := 0xcb
  const RECEIVE: byte := 0x09
  const SEND_DATA: byte := 0x07
  const ASYNC_SEND_DATA: byte := 0x08
  const DEALLOCATED_NORMAL := 18

  datatype Result<T> = Ok(value: T) | Rejected

  /** The parts of the common header that decide anything. */
  datatype Header = Header(fn: byte, sequenceNumber: nat, vector: byte, appcReturnCode: nat, sapReturnCode: nat,
                           conversationId: seq<byte>)

  function DecodeHeader(payload: seq<byte>): Result<Header> {
    if |payload| < COMMON_HEADER_LENGTH || payload[0] != PROTOCOL_VERSION then Rejected
    else Ok(Header(payload[1], BigEndian(payload[22..26]), payload[31], BigEndian(payload[32..36]),
                   BigEndian(payload[36..40]), payload[40..48]))
  }

  datatype OperationInfo = OperationInfo(dataLength: nat, communicationIndex: nat, connectionIndex: nat)

  function DecodeOperationInfo(info: seq<byte>): OperationInfo
    requires |info| == 32
  {
    OperationInfo(BigEndian(info[10..12]), BigEndian(info[28..30]), BigEndian(info[30..32]))
  }

  /** The end-of-message bit, 0x04, of the vector. */
  predicate EndOfMessage(vector: byte) { vector / 4 % 2 == 1 }

  /** Who a record belongs to. */
  datatype Identity = Identity(conversationId: seq<byte>, sequenceNumber: nat, communicationIndex: nat, connectionIndex: nat)

  datatype Message = Message(data: seq<byte>, identity: Identity, fragmentCount: nat)

  datatype Pending = Pending(chunks: seq<seq<byte>>, identity: Identity, byteLength: nat, fragmentCount: nat)

  datatype Limits = Limits(maxMessageLength: nat, maxFragments: nat, allowInitialReceive: bool, validateLength: bool)

  predicate WithinLimits(limits: Limits, byteLength: nat, fragmentCount: nat) {
    byteLength <= limits.maxMessageLength && fragmentCount <= limits.maxFragments
  }

  function IdentityOf(header: Header, info: OperationInfo): Identity {
    Identity(header.conversationId, header.sequenceNumber, info.communicationIndex, info.connectionIndex)
  }

  // ---- what a push means ----

  function RecordData(payload: seq<byte>): seq<byte>
    requires |payload| >= RECORD_HEADER_LENGTH
  {
    payload[RECORD_HEADER_LENGTH..]
  }

  function RecordIdentity(payload: seq<byte>): Identity
    requires |payload| >= RECORD_HEADER_LENGTH && payload[0] == PROTOCOL_VERSION
  {
    IdentityOf(DecodeHeader(payload).value, DecodeOperationInfo(payload[COMMON_HEADER_LENGTH..RECORD_HEADER_LENGTH]))
  }

  predicate IsData(header: Header) { header.fn == SAP_SEND || header.fn == RECEIVE }

  /** The return codes the two entry points admit: none, or exactly normal deallocation. */
  predicate CodesAdmitted(header: Header, terminal: bool) {
    header.sapReturnCode == 0 && header.appcReturnCode == if terminal then DEALLOCATED_NORMAL else 0
  }

  function Held(pending: Option<Pending>): seq<seq<byte>> { if pending.Some? then pending.value.chunks else [] }

  /** The record may come next: it opens a message, or continues the pending one under its identity. */
  predicate Continues(limits: Limits, pending: Option<Pending>, header: Header, identity: Identity) {
    if pending.None? then header.fn == SAP_SEND || limits.allowInitialReceive
    else header.fn == RECEIVE && pending.value.identity == identity
  }

  predicate Admitted(limits: Limits, pending: Option<Pending>, payload: seq<byte>, terminal: bool) {
    && |payload| >= RECORD_HEADER_LENGTH && payload[0] == PROTOCOL_VERSION
    && var header := DecodeHeader(payload).value;
       var data := RecordData(payload);
       && CodesAdmitted(header, terminal) && IsData(header)
       && Continues(limits, pending, header, RecordIdentity(payload))
       && WithinLimits(limits, |Flatten(Held(pending))| + |data|, |Held(pending)| + 1)
       && (limits.validateLength ==>
             DecodeOperationInfo(payload[COMMON_HEADER_LENGTH..RECORD_HEADER_LENGTH]).dataLength == |data|)
       && (terminal ==> data != [])
  }

  /** A record of another kind is passed over between messages. */
  predicate PassedOver(pending: Option<Pending>, payload: seq<byte>, terminal: bool) {
    && DecodeHeader(payload).Ok? && pending.None? && !terminal
    && CodesAdmitted(DecodeHeader(payload).value, false) && !IsData(DecodeHeader(payload).value)
  }

  /** The admitted record joins what is held; the end-of-message bit or deallocation delivers it. */
  function Joined(pending: Option<Pending>, payload: seq<byte>): Pending
    requires |payload| >= RECORD_HEADER_LENGTH && payload[0] == PROTOCOL_VERSION
  {
    var chunks := Held(pending) + [RecordData(payload)];
    Pending(chunks, RecordIdentity(payload), |Flatten(chunks)|, |chunks|)
  }

  predicate Delivers(payload: seq<byte>, terminal: bool)
    requires |payload| > 31
  {
    terminal || EndOfMessage(payload[31])
  }

  function Assembled(p: Pending): Message { Message(Flatten(p.chunks), p.identity, p.fragmentCount) }

  datatype Outcome = Outcome(reply: Result<seq<Message>>, pending: Option<Pending>)

  function Push(limits: Limits, pending: Option<Pending>, payload: seq<byte>, terminal: bool): Outcome {
    if PassedOver(pending, payload, terminal) then Outcome(Ok([]), pending)
    else if !Admitted(limits, pending, payload, terminal) then Outcome(Rejected, pending)
    else if Delivers(payload, terminal) then Outcome(Ok([Assembled(Joined(pending, payload))]), None)
    else Outcome(Ok([]), Some(Joined(pending, payload)))
  }

  /** The counters are the sums over the held chunks, within the limits. */
  predicate Coherent(limits: Limits, pending: Option<Pending>) {
    pending.Some? ==>
      var p := pending.value;
      && |p.chunks| > 0
      && p.byteLength == |Flatten(p.chunks)| && p.fragmentCount == |p.chunks|
      && WithinLimits(limits, p.byteLength, p.fragmentCount)
  }

  // ---- the reassembler ----

  class ConversationDecoder {
    const limits: Limits
    var pending: Option<Pending>

    predicate Valid()
      reads this
    {
      Coherent(limits, pending)
    }

    constructor (limits: Limits)
      ensures Valid() && this.limits == limits && pending == None
    {
      this.limits := limits;
      pending := None;
    }

    method CheckLimits(byteLength: nat, fragmentCount: nat) returns (ok: bool)
      ensures ok == WithinLimits(limits, byteLength, fragmentCount)
    {
      if byteLength > limits.maxMessageLength {
        return false;
      }
      if fragmentCount > limits.maxFragments {
        return false;
      }
      ok := true;
    }

    /** The record's data after what is held; the pending chunks are only read. */
    method ConcatChunks(chunks: seq<seq<byte>>) returns (out: seq<byte>)
      ensures out == Flatten(chunks)
    {
      out := [];
      for k := 0 to |chunks|
        invariant out == Flatten(chunks[..k])
      {
        FlattenSplit(chunks[..k], [chunks[k]]);
        FlattenOne(chunks[k]);
        assert chunks[..k + 1] == chunks[..k] + [chunks[k]];
        out := out + chunks[k];
      }
      assert chunks[..|chunks|] == chunks;
    }

    method PushRecord(payload: seq<byte>, terminal: bool) returns (r: Result<seq<Message>>)
      requires Valid()
      modifies this
      ensures Valid()
      ensures Outcome(r, pending) == Push(limits, old(pending), payload, terminal)
    {
      hide Flatten, BigEndian, DecodeOperationInfo, EndOfMessage;
      var decoded := DecodeHeader(payload);
      if decoded.Rejected? {
        return Rejected;
      }
      var header := decoded.value;
      if terminal {
        if header.appcReturnCode != DEALLOCATED_NORMAL || header.sapReturnCode != 0 {
          return Rejected;
        }
      } else if header.appcReturnCode == DEALLOCATED_NORMAL && header.sapReturnCode == 0 {
        return Rejected;
      } else if header.appcReturnCode != 0 || header.sapReturnCode != 0 {
        return Rejected;
      }
      if header.fn != SAP_SEND && header.fn != RECEIVE {
        if pending.Some? || terminal {
          return Rejected;
        }
        return Ok([]);
      }
      HeldFacts(limits, pending);
      var heldBytes := if pending.Some? then pending.value.byteLength else 0;
      var heldCount := if pending.Some? then pending.value.fragmentCount else 0;
      if |payload| >= RECORD_HEADER_LENGTH {
        var within := CheckLimits(heldBytes + (|payload| - RECORD_HEADER_LENGTH), heldCount + 1);
        if !within {
          return Rejected;
        }
      } else {
        return Rejected;
      }
      var data := RecordData(payload);
      var info := DecodeOperationInfo(payload[COMMON_HEADER_LENGTH..RECORD_HEADER_LENGTH]);
      if limits.validateLength && info.dataLength != |data| {
        return Rejected;
      }
      JoinFacts(pending, payload);
      r := Dispatch(header, info, data, payload, terminal);
    }

    /** The record has passed the checks that do not depend on its place in a message. */
    method Dispatch(header: Header, info: OperationInfo, data: seq<byte>, payload: seq<byte>, terminal: bool)
      returns (r: Result<seq<Message>>)
      requires Valid()
      requires |payload| >= RECORD_HEADER_LENGTH && DecodeHeader(payload) == Ok(header) && IsData(header)
      requires info == DecodeOperationInfo(payload[COMMON_HEADER_LENGTH..RECORD_HEADER_LENGTH]) && data == RecordData(payload)
      requires CodesAdmitted(header, terminal) && (limits.validateLength ==> info.dataLength == |data|)
      requires WithinLimits(limits, |Flatten(Held(pending))| + |data|, |Held(pending)| + 1)
      modifies this
      ensures Valid()
      ensures Outcome(r, pending) == Push(limits, old(pending), payload, terminal)
    {
      hide Flatten, BigEndian, DecodeOperationInfo, EndOfMessage;
      JoinFacts(pending, payload);
      HeldFacts(limits, pending);
      var final := EndOfMessage(header.vector);
      var identity := IdentityOf(header, info);
      if terminal && |data| == 0 {
        return Rejected;
      }
      if pending.None? {
        if header.fn == RECEIVE && !limits.allowInitialReceive {
          return Rejected;
        }
        FlattenOne(data);
        assert [] + [data] == [data];
        if terminal || final {
          return Ok([Message(data, identity, 1)]);
        }
        pending := Some(Pending([data], identity, |data|, 1));
        return Ok([]);
      }
      var p := pending.value;
      if header.fn != RECEIVE || p.identity != identity {
        return Rejected;
      }
      var chunks := p.chunks + [data];
      if !terminal && !final {
        pending := Some(Pending(chunks, p.identity, p.byteLength + |data|, p.fragmentCount + 1));
        return Ok([]);
      }
      var whole := ConcatChunks(chunks);
      pending := None;
      r := Ok([Message(whole, p.identity, p.fragmentCount + 1)]);
    }

    /** Accepted exactly when nothing is buffered. */
    method Finish() returns (r: Result<()>)
      requires Valid()
      ensures r.Ok? <==> pending.None?
    {
      if pending.Some? {
        return Rejected;
      }
      r := Ok(());
    }
  }

  lemma HeldFacts(limits: Limits, pending: Option<Pending>)
    requires Coherent(limits, pending)
    ensures |Flatten(Held(pending))| == if pending.Some? then pending.value.byteLength else 0
    ensures |Held(pending)| == if pending.Some? then pending.value.fragmentCount else 0
  {
  }

  lemma JoinFacts(pending: Option<Pending>, payload: seq<byte>)
    requires |payload| >= RECORD_HEADER_LENGTH && payload[0] == PROTOCOL_VERSION
    ensures Flatten(Held(pending) + [RecordData(payload)]) == Flatten(Held(pending)) + RecordData(payload)
    ensures Joined(pending, payload).byteLength == |Flatten(Held(pending))| + |RecordData(payload)|
    ensures Joined(pending, payload).fragmentCount == |Held(pending)| + 1
  {
    FlattenSplit(Held(pending), [RecordData(payload)]);
    FlattenOne(RecordData(payload));
  }

  // ---- whole runs ----

  datatype Input = Input(payload: seq<byte>, terminal: bool)

  /** A delivered message with the records it was made of. */
  datatype Delivery = Delivery(message: Message, records: seq<seq<byte>>)

  /** The decoder's state with what an observer has seen: the data records accepted since the last
      delivery, and all deliveries. */
  datatype History = History(pending: Option<Pending>, since: seq<seq<byte>>, delivered: seq<Delivery>)

  function Observe(limits: Limits, h: History, x: Input): History {
    var o := Push(limits, h.pending, x.payload, x.terminal);
    if o.reply.Rejected? || PassedOver(h.pending, x.payload, x.terminal) then h.(pending := o.pending)
    else if o.reply.value == [] then History(o.pending, h.since + [x.payload], h.delivered)
    else History(o.pending, [], h.delivered + [Delivery(o.reply.value[0], h.since + [x.payload])])
  }

  function Watch(limits: Limits, h: History, inputs: seq<Input>): History
    decreases |inputs|
  {
    if inputs == [] then h else Watch(limits, Observe(limits, h, inputs[0]), inputs[1..])
  }

  predicate IsRecord(payload: seq<byte>) { |payload| >= RECORD_HEADER_LENGTH && payload[0] == PROTOCOL_VERSION }

  function DataOf(records: seq<seq<byte>>): seq<seq<byte>>
    requires forall k :: 0 <= k < |records| ==> IsRecord(records[k])
  {
    seq(|records|, k requires 0 <= k < |records| => assert IsRecord(records[k]); RecordData(records[k]))
  }

  /** The records are data records of one identity, and chunks are their contents in order. */
  predicate MadeOf(chunks: seq<seq<byte>>, identity: Identity, records: seq<seq<byte>>) {
    && (forall k :: 0 <= k < |records| ==> IsRecord(records[k]) && RecordIdentity(records[k]) == identity)
    && chunks == DataOf(records)
  }

  predicate DeliveryOk(limits: Limits, d: Delivery) {
    && d.records != []
    && (forall k :: 0 <= k < |d.records| ==> IsRecord(d.records[k]) && RecordIdentity(d.records[k]) == d.message.identity)
    && d.message.data == Flatten(DataOf(d.records)) && d.message.fragmentCount == |d.records|
    && WithinLimits(limits, |d.message.data|, d.message.fragmentCount)
  }

  predicate Truthful(limits: Limits, h: History) {
    && Coherent(limits, h.pending)
    && (h.pending.None? <==> h.since == [])
    && (h.pending.Some? ==> MadeOf(h.pending.value.chunks, h.pending.value.identity, h.since))
    && (forall k :: 0 <= k < |h.delivered| ==> DeliveryOk(limits, h.delivered[k]))
  }

  lemma MadeOfJoined(pending: Option<Pending>, since: seq<seq<byte>>, payload: seq<byte>)
    requires IsRecord(payload)
    requires if pending.Some? then MadeOf(pending.value.chunks, pending.value.identity, since) && pending.value.identity == RecordIdentity(payload)
             else since == []
    ensures MadeOf(Joined(pending, payload).chunks, RecordIdentity(payload), since + [payload])
  {
    hide RecordIdentity;
    var all := since + [payload];
    forall k | 0 <= k < |all| ensures IsRecord(all[k]) && RecordIdentity(all[k]) == RecordIdentity(payload) {
      if k < |since| { assert all[k] == since[k]; }
    }
    assert DataOf(all) == DataOf(since) + [RecordData(payload)];
  }

  /** Each push keeps the account: a rejected record changes nothing, an accepted one joins, and what is
      delivered is the concatenation of the records accepted since the delivery before. */
  lemma ObserveTruthful(limits: Limits, h: History, x: Input)
    requires Truthful(limits, h)
    ensures Truthful(limits, Observe(limits, h, x))
    ensures Push(limits, h.pending, x.payload, x.terminal).reply.Rejected? ==> Observe(limits, h, x) == h
  {
    hide RecordIdentity, DataOf, Flatten, MadeOf, DecodeOperationInfo, DeliveryOk, DecodeHeader;
    if !PassedOver(h.pending, x.payload, x.terminal) && Admitted(limits, h.pending, x.payload, x.terminal) {
      var joined := Joined(h.pending, x.payload);
      MadeOfJoined(h.pending, h.since, x.payload);
      JoinFacts(h.pending, x.payload);
      if Delivers(x.payload, x.terminal) {
        DeliveryFromJoined(limits, joined, h.since + [x.payload]);
      }
    }
  }

  lemma DeliveryFromJoined(limits: Limits, p: Pending, records: seq<seq<byte>>)
    requires Coherent(limits, Some(p)) && MadeOf(p.chunks, p.identity, records)
    ensures DeliveryOk(limits, Delivery(Assembled(p), records))
  {
    hide RecordIdentity, Flatten;
  }

  /** Over every run from an empty decoder: counters, limits and contents hold after each push, and every
      message delivered is exactly its records, in order and under one identity. */
  lemma {:induction false} EveryRunTruthful(limits: Limits, h: History, inputs: seq<Input>)
    requires Truthful(limits, h)
    ensures Truthful(limits, Watch(limits, h, inputs))
    decreases |inputs|
  {
    hide Truthful, Observe;
    if inputs != [] {
      ObserveTruthful(limits, h, inputs[0]);
      EveryRunTruthful(limits, Observe(limits, h, inputs[0]), inputs[1..]);
    }
  }

  lemma FreshRunTruthful(limits: Limits, inputs: seq<Input>)
    ensures Truthful(limits, Watch(limits, History(None, [], []), inputs))
  {
    EveryRunTruthful(limits, History(None, [], []), inputs);
  }
}
