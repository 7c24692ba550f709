/** The client's conversation state machine. */
module AppcSetup {
  import opened Bytes
  import opened AppcConversation

  const INITIALIZE: byte := 0x01
  const ALLOCATE: byte := 0x05
  const DEALLOCATE: byte := 0x0b
  const SET_TP_NAME: byte := 0x0d
  const SET_PARTNER_LU_NAME: byte := 0x0f

  datatype State =
    | New | InitializePending | Initialized | TpSet | PartnerSet | AllocatePending
    | Ready | SendContinuation | SendBarrierPending | ResponsePending | Closed

  datatype Disposition = Accepted | NormalDeallocation

  // ---- the admitted conversations as a table ----

  /** The state after sending, if the table has the transition. */
  function AfterSend(state: State, fn: byte, final: bool): Result<State> {
    match state
    case New => if fn == INITIALIZE then Ok(InitializePending) else Rejected
    case Initialized =>
      if fn == SET_TP_NAME then Ok(TpSet) else if fn == SET_PARTNER_LU_NAME then Ok(PartnerSet) else Rejected
    case TpSet => if fn == SET_PARTNER_LU_NAME then Ok(PartnerSet) else Rejected
    case PartnerSet => if fn == ALLOCATE then Ok(AllocatePending) else Rejected
    case Ready =>
      if fn == SAP_SEND && final then Ok(ResponsePending)
      else if fn == ASYNC_SEND_DATA && !final then Ok(SendContinuation)
      else if fn == DEALLOCATE then Ok(Closed)
      else Rejected
    case SendContinuation =>
      if fn == ASYNC_SEND_DATA && !final then Ok(SendContinuation)
      else if fn == SEND_DATA && !final then Ok(SendBarrierPending)
      else if fn == RECEIVE && final then Ok(ResponsePending)
      else Rejected
    case _ => Rejected
  }

  /** The state after a reply without return codes. */
  function AfterReply(state: State, fn: byte): Result<State> {
    match state
    case InitializePending => if fn == INITIALIZE then Ok(Initialized) else Rejected
    case AllocatePending => if fn == ALLOCATE then Ok(Ready) else Rejected
    case SendBarrierPending => if fn == SEND_DATA then Ok(SendContinuation) else Rejected
    case ResponsePending => if fn == SAP_SEND || fn == RECEIVE then Ok(ResponsePending) else Rejected
    case _ => Rejected
  }

  /** A reply closes the conversation unless the table admits it; deallocation with data closes it in good order. */
  function AfterReceive(state: State, payload: seq<byte>): (State, Result<Disposition>) {
    if |payload| < RECORD_HEADER_LENGTH || DecodeHeader(payload).Rejected? then (Closed, Rejected)
    else
      var h := DecodeHeader(payload).value;
      if h.appcReturnCode == DEALLOCATED_NORMAL && h.sapReturnCode == 0 && state == ResponsePending && IsData(h) then
        (Closed, Ok(NormalDeallocation))
      else if h.appcReturnCode != 0 || h.sapReturnCode != 0 || AfterReply(state, h.fn).Rejected? then (Closed, Rejected)
      else (AfterReply(state, h.fn).value, Ok(Accepted))
  }

  class ClientSetup {
    var state: State

    constructor ()
      ensures state == New
    {
      state := New;
    }

    method ResponseComplete() returns (r: Result<()>)
      modifies this
      ensures r.Ok? <==> old(state) == ResponsePending
      ensures state == if r.Ok? then Ready else Closed
    {
      if state != ResponsePending {
        state := Closed;
        return Rejected;
      }
      state := Ready;
      r := Ok(());
    }

    method Sent(fn: byte, final: bool) returns (r: Result<()>)
      modifies this
      ensures r.Ok? <==> AfterSend(old(state), fn, final).Ok?
      ensures state == if r.Ok? then AfterSend(old(state), fn, final).value else old(state)
    {
      if fn == SAP_SEND && !final {
        return Rejected;
      }
      if fn == ASYNC_SEND_DATA && final {
        return Rejected;
      }
      if fn == SEND_DATA && final {
        return Rejected;
      }
      if fn == RECEIVE && state == SendContinuation && !final {
        return Rejected;
      }
      var allowed :=
        || (state == New && fn == INITIALIZE)
        || (state == Initialized && (fn == SET_TP_NAME || fn == SET_PARTNER_LU_NAME))
        || (state == TpSet && fn == SET_PARTNER_LU_NAME)
        || (state == PartnerSet && fn == ALLOCATE)
        || (state == Ready && (fn == SAP_SEND || fn == ASYNC_SEND_DATA || fn == DEALLOCATE))
        || (state == SendContinuation && (fn == ASYNC_SEND_DATA || fn == SEND_DATA || fn == RECEIVE));
      if !allowed {
        return Rejected;
      }
      if fn == INITIALIZE {
        state := InitializePending;
      } else if fn == SET_TP_NAME {
        state := TpSet;
      } else if fn == SET_PARTNER_LU_NAME {
        state := PartnerSet;
      } else if fn == ALLOCATE {
        state := AllocatePending;
      } else if fn == ASYNC_SEND_DATA {
        state := SendContinuation;
      } else if fn == SAP_SEND {
        state := ResponsePending;
      } else if fn == SEND_DATA {
        state := SendBarrierPending;
      } else if fn == RECEIVE {
        if final {
          state := ResponsePending;
        }
      } else if fn == DEALLOCATE {
        state := Closed;
      }
      r := Ok(());
    }

    method Received(payload: seq<byte>) returns (r: Result<Disposition>)
      modifies this
      ensures (state, r) == AfterReceive(old(state), payload)
    {
      if |payload| < RECORD_HEADER_LENGTH {
        state := Closed;
        return Rejected;
      }
      var decoded := DecodeHeader(payload);
      if decoded.Rejected? {
        state := Closed;
        return Rejected;
      }
      var h := decoded.value;
      var normal := h.appcReturnCode == DEALLOCATED_NORMAL && h.sapReturnCode == 0 && state == ResponsePending
                    && (h.fn == SAP_SEND || h.fn == RECEIVE);
      if normal {
        state := Closed;
        return Ok(NormalDeallocation);
      }
      if h.appcReturnCode != 0 || h.sapReturnCode != 0 {
        state := Closed;
        return Rejected;
      }
      var allowed :=
        || (state == InitializePending && h.fn == INITIALIZE)
        || (state == AllocatePending && h.fn == ALLOCATE)
        || (state == SendBarrierPending && h.fn == SEND_DATA)
        || (state == ResponsePending && (h.fn == SAP_SEND || h.fn == RECEIVE));
      if !allowed {
        state := Closed;
        return Rejected;
      }
      match state {
        case InitializePending => state := Initialized;
        case AllocatePending => state := Ready;
        case SendBarrierPending => state := SendContinuation;
        case _ =>
      }
      r := Ok(Accepted);
    }
  }

  // ---- runs ----

  datatype Event = Send(fn: byte, final: bool) | Receive(payload: seq<byte>) | Complete

  function Next(state: State, e: Event): State {
    match e
    case Send(fn, final) => if AfterSend(state, fn, final).Ok? then AfterSend(state, fn, final).value else state
    case Receive(payload) => AfterReceive(state, payload).0
    case Complete => if state == ResponsePending then Ready else Closed
  }

  function RunEvents(state: State, events: seq<Event>): State
    decreases |events|
  {
    if events == [] then state else RunEvents(Next(state, events[0]), events[1..])
  }

  /** Nothing leads out of the closed state. */
  lemma {:induction false} ClosedIsAbsorbing(events: seq<Event>)
    ensures RunEvents(Closed, events) == Closed
    decreases |events|
  {
    if events != [] {
      assert Next(Closed, events[0]) == Closed;
      ClosedIsAbsorbing(events[1..]);
    }
  }
}
