/** From an encoded request to the records that carry it. */
module RequestSending {
  import opened Bytes
  import opened FieldChain
  import opened CutRequest
  import AppcConversation
  import AppcPlan

  /** The packet cut at its trailer: application data, and the eight-byte tail of a compact one. */
  function PlanInputFor(data: seq<byte>, framing: Framing, conversationId: seq<byte>, connectionIndex: nat): AppcPlan.PlanInput
    requires framing.Compact? ==> framing.applicationLength <= |data|
  {
    var compact := framing.Compact?;
    AppcPlan.PlanInput(Some(conversationId), 0, if compact then data[..framing.applicationLength] else data,
                       if compact then Some(data[framing.applicationLength..]) else None, 0xffff, connectionIndex)
  }

  /** The defaults a session sends with. */
  function SessionOptions(streaming: bool): AppcPlan.PlanOptions { AppcPlan.PlanOptions(1_400_000, 65_536, streaming) }

  predicate IsCompact(input: CutInput) { |PREFIX| + ChainLength(RequestFields(input)) + 2 <= MAX_FRAGMENT }

  lemma TailFits(front: seq<byte>, maxPacketSize: nat)
    requires |front| + 2 <= MAX_FRAGMENT
    ensures var data := front + CompactTail(|front| + 2, maxPacketSize);
            |data| == |front| + 10 && AppcPlan.SapTailFits(data[|front| + 2..], |front| + 2)
  {
    hide U16, U32, BigEndian;
    var n := |front| + 2;
    var data := front + CompactTail(n, maxPacketSize);
    var tail := data[n..];
    assert tail == U16(0) + U16(n) + U32(maxPacketSize);
    assert tail[..2] == U16(0) && tail[2..4] == U16(n);
    BigEndianOfU16(0);
    BigEndianOfU16(n);
  }

  /** The planner takes every compact request and, where streaming is enabled, every streamed one up to its limit;
      what it plans to send is the encoded request, byte for byte. */
  lemma RequestIsPlanned(input: CutInput, conversationId: seq<byte>, connectionIndex: nat, streaming: bool)
    requires Accepted(input) && |conversationId| == 8
    ensures var data := Encoded(input);
            var framing := InspectRequestAppcFraming(data);
            && (framing.Compact? ==> framing.applicationLength <= |data|)
            && var plan := PlanInputFor(data, framing, conversationId, connectionIndex);
               && (AppcPlan.Admissible(plan, SessionOptions(streaming)) <==> IsCompact(input) || (streaming && |data| <= 1_400_000))
               && plan.data + (if plan.finalSap.Some? then plan.finalSap.value else []) == data
  {
    hide ChainBytes, RequestFields, Accepted, ChainLength, InspectRequestAppcFraming, AppcPlan.SapTailFits;
    FramingAgrees(input);
    EndsInEnd(input);
    var data := Encoded(input);
    var front := PREFIX + ChainBytes(CONTEXT_END, RequestFields(input));
    if IsCompact(input) {
      TailFits(front, input.maxPacketSize);
    }
  }
}
