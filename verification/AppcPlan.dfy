/** Planning, encoding and sending one outgoing CPIC message. */
module AppcPlan {
  import opened Bytes
  import opened AppcConversation
  import opened AppcSetup

  const MAX_FRAGMENT := 28000
  const MAX_ASYNC_BEFORE_SYNC := 21
  const MAX_OUTGOING := 0x7fff_ffff
  const FINAL_SAP_LENGTH := 8

  datatype Semantics = Semantics(fn: byte, isFinal: bool, info: byte, vector: byte, sapParameterLength: nat)

  function OutgoingSemantics(index: int, count: int): Semantics {
    var isSingle := count == 1;
    var isFinal := isSingle || index == count - 1;
    var isSync := !isSingle && !isFinal && index >= MAX_ASYNC_BEFORE_SYNC
                  && (index - MAX_ASYNC_BEFORE_SYNC) % MAX_ASYNC_BEFORE_SYNC == 0;
    Semantics(
      if isSingle then SAP_SEND else if isFinal then RECEIVE else if isSync then SEND_DATA else ASYNC_SEND_DATA,
      isFinal,
      if isSingle then 5 else if isFinal || isSync then 1 else 0,
      if isSingle then 0x0c else 0,
      if isSingle then FINAL_SAP_LENGTH else 0)
  }

  datatype PlanInput = PlanInput(conversationId: Option<seq<byte>>, sequenceNumber: nat, data: seq<byte>,
                                 finalSap: Option<seq<byte>>, communicationIndex: nat, connectionIndex: nat)

  datatype PlanOptions = PlanOptions(maxLength: int, maxFragments: int, streaming: bool)

  datatype Fragment = Fragment(semantics: Semantics, index: int, count: int, conversationId: seq<byte>, sequenceNumber: nat,
                               data: seq<byte>, finalSap: seq<byte>, messageLength: int,
                               communicationIndex: nat, connectionIndex: nat)

  /** The eight-byte tail of a compact packet: a zero word, then the packet's own length. */
  predicate SapTailFits(tail: seq<byte>, length: int) {
    |tail| == FINAL_SAP_LENGTH && BigEndian(tail[..2]) == 0 && BigEndian(tail[2..4]) == length
  }

  /** What the planner takes: a compact packet with its tail, or a larger one with streaming enabled. */
  predicate Admissible(input: PlanInput, options: PlanOptions) {
    && 0 <= options.maxLength <= MAX_OUTGOING && options.maxFragments >= 1
    && |input.data| <= options.maxLength
    && (if input.finalSap.Some? then SapTailFits(input.finalSap.value, |input.data|) && |input.data| <= MAX_FRAGMENT
        else |input.data| > MAX_FRAGMENT && options.streaming)
    && FragmentCount(input) <= options.maxFragments
    && (input.conversationId.Some? ==> |input.conversationId.value| == 8)
  }

  function FragmentCount(input: PlanInput): nat {
    if input.finalSap.Some? then 1 else (|input.data| + MAX_FRAGMENT - 1) / MAX_FRAGMENT + 1
  }

  function ConversationOf(input: PlanInput): seq<byte> {
    if input.conversationId.Some? then input.conversationId.value else [0, 0, 0, 0, 0, 0, 0, 0]
  }

  function Least(a: int, b: int): int { if a < b then a else b }

  function FragmentAt(input: PlanInput, i: nat): Fragment {
    var count := FragmentCount(input);
    var sem := OutgoingSemantics(i, count);
    var start := Least(i * MAX_FRAGMENT, |input.data|);
    var end := if sem.fn == RECEIVE then start else Least(start + MAX_FRAGMENT, |input.data|);
    Fragment(sem, i, count, ConversationOf(input), input.sequenceNumber, input.data[start..end],
             if input.finalSap.Some? then input.finalSap.value else [], |input.data|,
             input.communicationIndex, input.connectionIndex)
  }

  predicate IsPlan(plan: seq<Fragment>, input: PlanInput) {
    |plan| == FragmentCount(input) && forall i :: 0 <= i < |plan| ==> plan[i] == FragmentAt(input, i)
  }

  method PlanOutgoingDataFragments(input: PlanInput, options: PlanOptions) returns (r: Result<seq<Fragment>>)
    ensures r.Ok? <==> Admissible(input, options)
    ensures r.Ok? ==> IsPlan(r.value, input)
  {
    hide BigEndian;
    if options.maxLength < 0 || options.maxLength > MAX_OUTGOING {
      return Rejected;
    }
    if options.maxFragments < 1 {
      return Rejected;
    }
    var length := |input.data|;
    if length > options.maxLength {
      return Rejected;
    }
    if input.finalSap.Some? {
      var tail := input.finalSap.value;
      if |tail| != FINAL_SAP_LENGTH {
        return Rejected;
      }
      if BigEndian(tail[..2]) != 0 || BigEndian(tail[2..4]) != length {
        return Rejected;
      }
      if length > MAX_FRAGMENT {
        return Rejected;
      }
    } else if length <= MAX_FRAGMENT {
      return Rejected;
    }
    var single := input.finalSap.Some?;
    if !single && !options.streaming {
      return Rejected;
    }
    var count := if single then 1 else (length + MAX_FRAGMENT - 1) / MAX_FRAGMENT + 1;
    if count > options.maxFragments {
      return Rejected;
    }
    var conversationId := if input.conversationId.Some? then input.conversationId.value else [0, 0, 0, 0, 0, 0, 0, 0];
    if |conversationId| != 8 {
      return Rejected;
    }
    var fragments: seq<Fragment> := [];
    for i := 0 to count
      invariant |fragments| == i && forall k :: 0 <= k < i ==> fragments[k] == FragmentAt(input, k)
    {
      var sem := OutgoingSemantics(i, count);
      var start := i * MAX_FRAGMENT;
      if start > length {
        start := length;
      }
      var end := start;
      if sem.fn != RECEIVE {
        end := start + MAX_FRAGMENT;
        if end > length {
          end := length;
        }
      }
      var tail := if single then input.finalSap.value else [];
      fragments := fragments + [Fragment(sem, i, count, conversationId, input.sequenceNumber, input.data[start..end], tail, length,
                                         input.communicationIndex, input.connectionIndex)];
    }
    r := Ok(fragments);
  }

  // ---- the slices ----

  function DataSlices(plan: seq<Fragment>): seq<seq<byte>> {
    seq(|plan|, i requires 0 <= i < |plan| => plan[i].data)
  }

  /** The first k slices are the first k times 28000 bytes. */
  lemma {:induction false} SlicesPrefix(input: PlanInput, plan: seq<Fragment>, k: nat)
    requires IsPlan(plan, input) && k < |plan|
    ensures Flatten(DataSlices(plan)[..k]) == input.data[..Least(k * MAX_FRAGMENT, |input.data|)]
  {
    var slices := DataSlices(plan);
    if k > 0 {
      SlicesPrefix(input, plan, k - 1);
      assert slices[..k] == slices[..k - 1] + [slices[k - 1]];
      FlattenSplit(slices[..k - 1], [slices[k - 1]]);
      FlattenOne(slices[k - 1]);
      assert plan[k - 1] == FragmentAt(input, k - 1);
    }
  }

  /** The slices are the message. */
  lemma PlanConcatenates(input: PlanInput, options: PlanOptions, plan: seq<Fragment>)
    requires Admissible(input, options) && IsPlan(plan, input)
    ensures Flatten(DataSlices(plan)) == input.data
    ensures forall i :: 0 <= i < |plan| ==> |plan[i].data| <= MAX_FRAGMENT
  {
    hide SapTailFits;
    var slices, n := DataSlices(plan), |plan| - 1;
    SlicesPrefix(input, plan, n);
    assert slices == slices[..n] + [slices[n]];
    FlattenSplit(slices[..n], [slices[n]]);
    FlattenOne(slices[n]);
    assert plan[n] == FragmentAt(input, n);
    if input.finalSap.None? {
      Covers(|input.data|);
    }
  }

  lemma Covers(n: nat)
    ensures (n + MAX_FRAGMENT - 1) / MAX_FRAGMENT * MAX_FRAGMENT >= n
    ensures n > 0 ==> ((n + MAX_FRAGMENT - 1) / MAX_FRAGMENT - 1) * MAX_FRAGMENT < n
  {
  }

  /** Any 22 consecutive records hold one that is not an asynchronous send. */
  lemma BarrierEvery21(input: PlanInput, plan: seq<Fragment>, from: nat)
    requires IsPlan(plan, input) && from + MAX_ASYNC_BEFORE_SYNC < |plan|
    ensures exists i :: from <= i <= from + MAX_ASYNC_BEFORE_SYNC && plan[i].semantics.fn != ASYNC_SEND_DATA
  {
    var i := (from + MAX_ASYNC_BEFORE_SYNC) / MAX_ASYNC_BEFORE_SYNC * MAX_ASYNC_BEFORE_SYNC;
    assert plan[i] == FragmentAt(input, i);
    assert (i - MAX_ASYNC_BEFORE_SYNC) % MAX_ASYNC_BEFORE_SYNC == 0;
  }

  // ---- the records ----

  function AsyncInfo(length: nat, communicationIndex: nat, connectionIndex: nat): seq<byte> {
    U16(0) + U16(length) + Zeros(24) + U16(communicationIndex) + U16(connectionIndex)
  }

  function ExtendedInfo(communicationIndex: nat, connectionIndex: nat): seq<byte> {
    Zeros(28) + U16(communicationIndex) + U16(connectionIndex)
  }

  function OperationInfoFor(f: Fragment): seq<byte> {
    if f.semantics.fn == RECEIVE && f.count > 1 then AsyncInfo(MAX_FRAGMENT, f.communicationIndex, f.connectionIndex)
    else if f.semantics.fn == ASYNC_SEND_DATA || f.semantics.fn == SEND_DATA then
      AsyncInfo(|f.data|, f.communicationIndex, f.connectionIndex)
    else ExtendedInfo(f.communicationIndex, f.connectionIndex)
  }

  function CommonHeader(f: Fragment): seq<byte> {
    [PROTOCOL_VERSION, f.semantics.fn, 2, 0, 0xff, 0xff] + Zeros(16) + U32(f.sequenceNumber)
    + U16(f.semantics.sapParameterLength) + [0, 0, f.semantics.info, f.semantics.vector] + Zeros(8) + f.conversationId
  }

  function EncodeOutgoingDataFragment(f: Fragment): Result<seq<byte>> {
    if |f.conversationId| != 8 || |f.data| > MAX_FRAGMENT || |f.finalSap| > FINAL_SAP_LENGTH then Rejected
    else if f.count < 1 || f.index < 0 || f.index >= f.count then Rejected
    else if f.messageLength < 0 || f.messageLength > MAX_OUTGOING then Rejected
    else if f.semantics != OutgoingSemantics(f.index, f.count) then Rejected
    else if f.count == 1 && !SapTailFits(f.finalSap, f.messageLength) then Rejected
    else if f.count != 1 && f.finalSap != [] then Rejected
    else if f.count != 1 && (f.semantics.fn == RECEIVE) != (f.data == []) then Rejected
    else Ok(CommonHeader(f) + OperationInfoFor(f) + f.data + f.finalSap)
  }

  lemma HeaderDecodes(f: Fragment, rest: seq<byte>)
    requires |f.conversationId| == 8 && f.sequenceNumber < 0x1_0000_0000
    ensures |CommonHeader(f)| == COMMON_HEADER_LENGTH
    ensures DecodeHeader(CommonHeader(f) + rest)
            == Ok(Header(f.semantics.fn, f.sequenceNumber, f.semantics.vector, 0, 0, f.conversationId))
  {
    hide U16, U32, Zeros, BigEndian;
    var rec := CommonHeader(f) + rest;
    BigEndianOfU32(f.sequenceNumber);
    assert rec[22..26] == U32(f.sequenceNumber);
    assert rec[32..40] == Zeros(8);
    ZeroWords(rec);
    assert rec[40..48] == f.conversationId;
  }

  lemma ZeroWords(rec: seq<byte>)
    requires |rec| >= 40 && rec[32..40] == Zeros(8)
    ensures BigEndian(rec[32..36]) == 0 && BigEndian(rec[36..40]) == 0
  {
    var z := rec[32..40];
    assert rec[32..36] == z[..4] && rec[36..40] == z[4..];
    BigEndianOf4(z[..4]);
    BigEndianOf4(z[4..]);
  }

  /** Every step of a plan encodes, and its record says and carries what the step says. */
  lemma PlanEncodes(input: PlanInput, options: PlanOptions, plan: seq<Fragment>, i: nat)
    requires Admissible(input, options) && IsPlan(plan, input) && i < |plan| && input.sequenceNumber < 0x1_0000_0000
    ensures var f := plan[i];
            && EncodeOutgoingDataFragment(f).Ok?
            && DecodeHeader(EncodeOutgoingDataFragment(f).value)
               == Ok(Header(f.semantics.fn, input.sequenceNumber, f.semantics.vector, 0, 0, ConversationOf(input)))
            && |EncodeOutgoingDataFragment(f).value| == RECORD_HEADER_LENGTH + |f.data| + |f.finalSap|
            && RecordData(EncodeOutgoingDataFragment(f).value) == f.data + f.finalSap
  {
    hide DecodeHeader, CommonHeader, OperationInfoFor, SapTailFits;
    assert plan[i] == FragmentAt(input, i);
    var f := plan[i];
    PlanStepFits(input, options, i);
    InfoLength(f);
    HeaderDecodes(f, OperationInfoFor(f) + f.data + f.finalSap);
    var head := CommonHeader(f);
    assert head + OperationInfoFor(f) + f.data + f.finalSap == head + (OperationInfoFor(f) + f.data + f.finalSap);
    assert head + OperationInfoFor(f) + f.data + f.finalSap == (head + OperationInfoFor(f)) + (f.data + f.finalSap);
  }

  lemma InfoLength(f: Fragment)
    ensures |OperationInfoFor(f)| == 32
  {
    hide U16, Zeros;
  }

  lemma PlanStepFits(input: PlanInput, options: PlanOptions, i: nat)
    requires Admissible(input, options) && i < FragmentCount(input)
    ensures EncodeOutgoingDataFragment(FragmentAt(input, i)).Ok?
  {
    hide CommonHeader, OperationInfoFor;
    SapTailLength(input);
    hide SapTailFits;
    if input.finalSap.None? {
      Covers(|input.data|);
    }
  }

  lemma SapTailLength(input: PlanInput)
    ensures input.finalSap.Some? && SapTailFits(input.finalSap.value, |input.data|) ==> |input.finalSap.value| == FINAL_SAP_LENGTH
  {
  }

  // ---- the flow-control acknowledgement ----

  function AckHeader(): seq<byte> {
    [PROTOCOL_VERSION, SEND_DATA, 2, 0, 0xff, 0xff] + Zeros(15) + [2] + Zeros(8) + [1] + Zeros(9)
  }

  /** The one canonical empty F_SEND_DATA reply, whatever its conversation and connection index. */
  predicate CanonicalAck(payload: seq<byte>) {
    |payload| == RECORD_HEADER_LENGTH && At(payload, 0, AckHeader()) && At(payload, COMMON_HEADER_LENGTH, Zeros(30))
  }

  lemma AckAccepted(payload: seq<byte>)
    requires CanonicalAck(payload)
    ensures AfterReceive(SendBarrierPending, payload) == (SendContinuation, Ok(Accepted))
  {
    hide BigEndian, Zeros;
    AtIndex(payload, 0, AckHeader(), 0);
    AtIndex(payload, 0, AckHeader(), 1);
    assert AckHeader()[32..40] == Zeros(9)[1..9];
    AtSlice(payload, 0, AckHeader());
    assert payload[32..40] == payload[0..40][32..40];
    assert Zeros(9)[1..9] == Zeros(8) by { ZeroTail(); }
    ZeroWords(payload);
  }

  lemma ZeroTail()
    ensures Zeros(9)[1..9] == Zeros(8)
  {
  }

  // ---- sending ----

  /** Where the conversation stands before step i of a plan of count steps. */
  function StateBefore(i: nat, count: nat): State {
    if i == 0 then Ready else if i < count then SendContinuation else ResponsePending
  }

  /** Each step is admitted where the plan has brought the conversation; a barrier waits for its acknowledgement. */
  lemma PlanStepAdmitted(input: PlanInput, plan: seq<Fragment>, i: nat)
    requires IsPlan(plan, input) && i < |plan|
    ensures var fn := plan[i].semantics.fn;
            AfterSend(StateBefore(i, |plan|), fn, fn == SAP_SEND || fn == RECEIVE)
            == Ok(if fn == SEND_DATA then SendBarrierPending else StateBefore(i + 1, |plan|))
    ensures plan[i].semantics.fn == SEND_DATA ==> StateBefore(i + 1, |plan|) == SendContinuation
  {
    assert plan[i] == FragmentAt(input, i);
  }

  function Barriers(plan: seq<Fragment>): nat {
    if plan == [] then 0 else Barriers(plan[..|plan| - 1]) + if plan[|plan| - 1].semantics.fn == SEND_DATA then 1 else 0
  }

  lemma {:induction false} BarriersOfPrefix(plan: seq<Fragment>, i: nat)
    requires i <= |plan|
    ensures Barriers(plan[..i]) <= Barriers(plan)
    decreases |plan|
  {
    if i < |plan| {
      assert plan[..|plan| - 1][..i] == plan[..i];
      BarriersOfPrefix(plan[..|plan| - 1], i);
    } else {
      assert plan[..i] == plan;
    }
  }

  /** State reached, acknowledgements used up, and whether every step went through. */
  datatype Sending = Sending(state: State, used: nat, ok: bool)

  /** One step: encode, advance, write, and after a barrier wait for its acknowledgement. */
  function SendStep(state: State, f: Fragment, acks: seq<seq<byte>>, used: nat): Sending {
    var fn := f.semantics.fn;
    var next := AfterSend(state, fn, fn == SAP_SEND || fn == RECEIVE);
    if EncodeOutgoingDataFragment(f).Rejected? || next.Rejected? then Sending(state, used, false)
    else if fn != SEND_DATA then Sending(next.value, used, true)
    else if used >= |acks| then Sending(next.value, used, false)
    else if !CanonicalAck(acks[used]) then Sending(next.value, used + 1, false)
    else
      var reply := AfterReceive(next.value, acks[used]);
      Sending(reply.0, used + 1, reply.1.Ok?)
  }

  /** The steps up to the first that fails; acks is what the transport delivers. */
  function SendAll(state: State, plan: seq<Fragment>, acks: seq<seq<byte>>): Sending {
    if plan == [] then Sending(state, 0, true)
    else
      var before := SendAll(state, plan[..|plan| - 1], acks);
      if before.ok then SendStep(before.state, plan[|plan| - 1], acks, before.used) else before
  }

  method WriteStep(setup: ClientSetup, f: Fragment, acks: seq<seq<byte>>, used: nat) returns (r: Sending, record: seq<byte>)
    modifies setup
    ensures r == SendStep(old(setup.state), f, acks, used) && setup.state == r.state
    ensures r.ok ==> EncodeOutgoingDataFragment(f) == Ok(record)
  {
    hide EncodeOutgoingDataFragment, AfterSend, AfterReceive, CanonicalAck;
    record := [];
    var encoded := EncodeOutgoingDataFragment(f);
    if encoded.Rejected? {
      return Sending(setup.state, used, false), record;
    }
    var fn := f.semantics.fn;
    var step := setup.Sent(fn, fn == SAP_SEND || fn == RECEIVE);
    if step.Rejected? {
      return Sending(setup.state, used, false), record;
    }
    record := encoded.value;
    if fn != SEND_DATA {
      return Sending(setup.state, used, true), record;
    }
    if used >= |acks| {
      return Sending(setup.state, used, false), record;
    }
    if !CanonicalAck(acks[used]) {
      return Sending(setup.state, used + 1, false), record;
    }
    var reply := setup.Received(acks[used]);
    r := Sending(setup.state, used + 1, reply.Ok?);
  }

  lemma {:induction false} FailureSticks(state: State, plan: seq<Fragment>, acks: seq<seq<byte>>, i: nat)
    requires i <= |plan| && !SendAll(state, plan[..i], acks).ok
    ensures SendAll(state, plan, acks) == SendAll(state, plan[..i], acks)
    decreases |plan|
  {
    hide SendStep;
    if i < |plan| {
      assert plan[..|plan| - 1][..i] == plan[..i];
      FailureSticks(state, plan[..|plan| - 1], acks, i);
    } else {
      assert plan[..i] == plan;
    }
  }

  /** Writes a whole plan. */
  method WriteDataPlan(setup: ClientSetup, plan: seq<Fragment>, acks: seq<seq<byte>>) returns (r: Sending, sent: seq<seq<byte>>)
    modifies setup
    ensures setup.state == r.state
    ensures r == if plan == [] then Sending(old(setup.state), 0, false) else SendAll(old(setup.state), plan, acks)
    ensures r.ok ==> |sent| == |plan| && forall k :: 0 <= k < |plan| ==> EncodeOutgoingDataFragment(plan[k]) == Ok(sent[k])
  {
    hide EncodeOutgoingDataFragment, SendStep;
    sent := [];
    r := Sending(setup.state, 0, true);
    if plan == [] {
      return r.(ok := false), sent;
    }
    for i := 0 to |plan|
      invariant r == SendAll(old(setup.state), plan[..i], acks) && r.ok && setup.state == r.state
      invariant |sent| == i && forall k :: 0 <= k < i ==> EncodeOutgoingDataFragment(plan[k]) == Ok(sent[k])
    {
      assert plan[..i + 1][..i] == plan[..i];
      var record;
      r, record := WriteStep(setup, plan[i], acks, r.used);
      if !r.ok {
        FailureSticks(old(setup.state), plan, acks, i + 1);
        return;
      }
      sent := sent + [record];
    }
    assert plan[..|plan|] == plan;
  }

  lemma {:induction false} PlanRunsTo(input: PlanInput, options: PlanOptions, plan: seq<Fragment>, acks: seq<seq<byte>>, i: nat)
    requires Admissible(input, options) && IsPlan(plan, input) && i <= |plan|
    requires Barriers(plan) <= |acks| && forall k :: 0 <= k < |acks| ==> CanonicalAck(acks[k])
    ensures SendAll(Ready, plan[..i], acks) == Sending(StateBefore(i, |plan|), Barriers(plan[..i]), true)
  {
    hide EncodeOutgoingDataFragment, AfterSend, AfterReceive, CanonicalAck, Admissible, FragmentAt;
    if i > 0 {
      PlanRunsTo(input, options, plan, acks, i - 1);
      assert plan[..i][..i - 1] == plan[..i - 1];
      assert plan[i - 1] == FragmentAt(input, i - 1);
      PlanStepFits(input, options, i - 1);
      PlanStepAdmitted(input, plan, i - 1);
      BarriersOfPrefix(plan, i);
      if plan[i - 1].semantics.fn == SEND_DATA {
        AckAccepted(acks[Barriers(plan[..i - 1])]);
      }
    }
  }

  /** From ready, with a valid acknowledgement for every barrier, a plan never trips the state machine and
      leaves it waiting for the response. */
  lemma PlanRuns(input: PlanInput, options: PlanOptions, plan: seq<Fragment>, acks: seq<seq<byte>>)
    requires Admissible(input, options) && IsPlan(plan, input)
    requires Barriers(plan) <= |acks| && forall k :: 0 <= k < |acks| ==> CanonicalAck(acks[k])
    ensures SendAll(Ready, plan, acks) == Sending(ResponsePending, Barriers(plan), true)
  {
    hide SendAll, CanonicalAck, SapTailFits;
    PlanRunsTo(input, options, plan, acks, |plan|);
    assert plan[..|plan|] == plan;
  }
}
