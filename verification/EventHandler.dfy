/** The two threads' own code over the shared state, each as it runs when nothing interferes. */
module EventHandler {
  import opened Bytes
  import opened EventStore
  import opened EventProtocol
  import Strtol

  class Agent {
    const state: V2State
    /** Events handed to the message handler, in order. */
    var calls: seq<Event>

    constructor ()
      ensures state.Valid() && state.Seen() == [] && state.Acks() == [] && calls == []
      ensures fresh(state) && fresh(state.seenEvents) && fresh(state.ackIds)
    {
      state := new V2State();
      calls := [];
    }

    /** The dedup key and ACK id that `ws_handle_v2_event` reads off an event. */
    method Identify(id: WireId) returns (key: Option<CStr>, ackId: int)
      ensures key == Key(id) && ackId == AckId(id)
    {
      key, ackId := None, 0;
      match id
      case Text(t) =>
        if t != [] {
          key := Some(t);
          var v := Strtol.Parse(t);
          if v.Some? && v.value > 0 { ackId := ToInt(v.value); }
        }
      case Number(v) =>
        if v > 0 {
          key, ackId := Some(Strtol.Decimal(v)), ToInt(v);
        }
      case NoId =>
    }

    /** `ws_handle_v2_event`: check, record, dispatch, acknowledge. */
    method HandleEvent(e: Event)
      requires state.Valid()
      modifies this`calls, state, state.seenEvents, state.ackIds
      ensures state.Valid()
      ensures var duplicate := Key(e.id).Some? && Key(e.id).value in old(state.Seen());
              && state.Seen() == (if Key(e.id).None? then old(state.Seen())
                                  else SeenAdd(old(state.Seen()), Key(e.id).value))
              && state.Acks() == (if AckId(e.id) > 0 && (duplicate || (e.kind != Unknown && e.kind != NoMethod))
                                  then AckAdd(old(state.Acks()), AckId(e.id)) else old(state.Acks()))
              && calls == (if !duplicate && (e.kind == Exec || e.kind == Ping(false) || e.kind == Terminal(false))
                           then old(calls) + [e] else old(calls))
    {
      var key, ackId := Identify(e.id);
      var duplicate := Deduplicate(e, key);
      var processed := false;
      if !duplicate {
        if CallsHandler(e.kind) { calls := calls + [e]; }
        processed := IsProcessed(e.kind);
      }
      Acknowledge(ackId, duplicate || processed);
    }

    method Acknowledge(ackId: int, wanted: bool)
      requires state.Valid()
      modifies state`ackIds, state`ackCount, state`ackCapacity, state.ackIds
      ensures state.Valid() && state.Seen() == old(state.Seen())
      ensures state.Acks() == if ackId > 0 && wanted then AckAdd(old(state.Acks()), ackId) else old(state.Acks())
    {
      if ackId > 0 && wanted {
        state.AddAckEvent(ackId);
      }
    }

    /** Looks the id up and records it when it is new; events without an id are never duplicates. */
    method Deduplicate(e: Event, key: Option<CStr>) returns (duplicate: bool)
      requires state.Valid() && key == Key(e.id)
      modifies state`seenEvents, state`seenCount, state`seenCapacity, state.seenEvents
      ensures state.Valid() && duplicate == IsSeen(old(state.Seen()), e)
      ensures state.Seen() == SeenAfter(old(state.Seen()), e) && state.Acks() == old(state.Acks())
      ensures state.ackIds == old(state.ackIds)
    {
      duplicate := false;
      if key.Some? {
        duplicate := state.IsEventSeen(key.value);
        if !duplicate { state.AddSeenEvent(key.value); }
      }
    }

    /**
     * The ACK part of one report cycle: the full pending list fits the buffer, and is cleared only
     * after a send that succeeded.
     */
    method ReportCycle(sent: bool) returns (ids: seq<int>)
      requires state.Valid()
      modifies state`ackCount
      ensures state.Valid() && state.Seen() == old(state.Seen())
      ensures ids == old(state.Acks())
      ensures state.Acks() == if sent then [] else old(state.Acks())
    {
      var buffer := new int[V2_ACK_IDS_MAX];
      var count := state.SnapshotAckIds(buffer);
      ids := buffer[..count];
      if sent && count > 0 { state.ClearAcks(); }
    }
  }
}
