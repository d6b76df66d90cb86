/** The shared v2 state of src/protocol/v2.c: seen event ids and pending ACK ids, both bounded queues. */
module EventStore {
  import opened Bytes

  const V2_SEEN_EVENTS_MAX := 1000
  const V2_ACK_IDS_MAX := 1024
  const V2_SEEN_EVENTS_INIT_CAPACITY := 64
  const V2_ACK_IDS_INIT_CAPACITY := 16

  // ---------------------------------------------------------------- bounded queues

  /** The newest `n` elements of a history. */
  function Newest<T>(h: seq<T>, n: nat): seq<T> {
    if |h| <= n then h else h[|h| - n..]
  }

  /** Appends, dropping the oldest element first when the queue is full. */
  function Push<T>(q: seq<T>, x: T, max: nat): seq<T>
    requires max > 0
  {
    (if |q| >= max then q[1..] else q) + [x]
  }

  /** A bounded queue holds exactly the newest elements of everything ever pushed. */
  lemma PushKeepsNewest<T>(h: seq<T>, x: T, max: nat)
    requires max > 0
    ensures Push(Newest(h, max), x, max) == Newest(h + [x], max)
  {
  }

  /** A seen id is recorded once: a repeated one neither moves nor refreshes its place. */
  function SeenAdd(seen: seq<CStr>, id: CStr): seq<CStr> {
    if id in seen then seen else Push(seen, id, V2_SEEN_EVENTS_MAX)
  }

  function AckAdd(acks: seq<int>, id: int): seq<int> {
    Push(acks, id, V2_ACK_IDS_MAX)
  }

  /** In numbers: a new id goes to the end, and at 1000 ids or 1024 ACKs the first one leaves. */
  lemma QueuesInNumbers(seen: seq<CStr>, id: CStr, acks: seq<int>, ack: int)
    ensures SeenAdd(seen, id) == if id in seen then seen else (if |seen| >= 1000 then seen[1..] else seen) + [id]
    ensures AckAdd(acks, ack) == (if |acks| >= 1024 then acks[1..] else acks) + [ack]
  {
  }

  ghost predicate NoDuplicates<T>(q: seq<T>) {
    forall i, j :: 0 <= i < j < |q| ==> q[i] != q[j]
  }

  // ---------------------------------------------------------------- the C structure

  class V2State {
    var seenEvents: array<CStr>
    var seenCount: nat
    var seenCapacity: nat
    var ackIds: array<int>
    var ackCount: nat
    var ackCapacity: nat

    ghost predicate Valid()
      reads this, seenEvents
    {
      && seenEvents.Length == seenCapacity && seenCount <= seenCapacity && seenCount <= V2_SEEN_EVENTS_MAX
      && seenCapacity in {0, 64, 128, 256, 512, 1024}
      && ackIds.Length == ackCapacity && ackCount <= ackCapacity
      && ackCapacity in {0, 16, 32, 64, 128, 256, 512, 1024}
      && NoDuplicates(seenEvents[..seenCount])
    }

    ghost function Seen(): seq<CStr>
      requires seenCount <= seenEvents.Length
      reads this`seenCount, this`seenEvents, seenEvents
    {
      seenEvents[..seenCount]
    }

    ghost function Acks(): seq<int>
      requires ackCount <= ackIds.Length
      reads this`ackCount, this`ackIds, ackIds
    {
      ackIds[..ackCount]
    }

    constructor ()
      ensures Valid() && Seen() == [] && Acks() == [] && fresh(seenEvents) && fresh(ackIds)
    {
      seenEvents, seenCount, seenCapacity := new CStr[0], 0, 0;
      ackIds, ackCount, ackCapacity := new int[0], 0, 0;
    }

    /** `v2_is_event_seen` */
    method IsEventSeen(id: CStr) returns (seen: bool)
      requires Valid()
      ensures seen <==> id in Seen()
    {
      for i := 0 to seenCount
        invariant id !in seenEvents[..i]
      {
        if seenEvents[i] == id { return true; }
      }
      return false;
    }

    /** `v2_add_seen_event`: evicts the oldest id at the limit, then grows by doubling. */
    method AddSeenEvent(id: CStr)
      requires Valid()
      modifies this`seenEvents, this`seenCount, this`seenCapacity, seenEvents
      ensures Valid() && Seen() == SeenAdd(old(Seen()), id) && Acks() == old(Acks())
      ensures seenEvents == old(seenEvents) || fresh(seenEvents)
      ensures seenCapacity == if seenCount <= old(seenCapacity) then old(seenCapacity)
                              else if old(seenCapacity) == 0 then 64 else 2 * old(seenCapacity)
    {
      var seen := IsEventSeen(id);
      if seen { return; }
      if seenCount >= V2_SEEN_EVENTS_MAX { DropOldestSeen(); }
      if seenCount >= seenCapacity {
        GrowSeen(if seenCapacity == 0 then V2_SEEN_EVENTS_INIT_CAPACITY else seenCapacity * 2);
      }
      StoreSeen(id);
    }

    method StoreSeen(id: CStr)
      requires Valid() && seenCount < seenCapacity && seenCount < V2_SEEN_EVENTS_MAX && id !in Seen()
      modifies this`seenCount, seenEvents
      ensures Valid() && Seen() == old(Seen()) + [id]
    {
      seenEvents[seenCount] := id;
      seenCount := seenCount + 1;
    }

    method DropOldestSeen()
      requires Valid() && seenCount > 0
      modifies this`seenCount, seenEvents
      ensures Valid() && Seen() == old(Seen())[1..]
    {
      forall i | 0 <= i < seenCount - 1 { seenEvents[i] := seenEvents[i + 1]; }
      seenCount := seenCount - 1;
    }

    method GrowSeen(capacity: nat)
      requires Valid() && capacity in {64, 128, 256, 512, 1024} && seenCount <= capacity
      modifies this`seenEvents, this`seenCapacity
      ensures Valid() && Seen() == old(Seen()) && seenCapacity == capacity && fresh(seenEvents)
    {
      var bigger := new CStr[capacity](_ => []);
      forall i | 0 <= i < seenCount { bigger[i] := seenEvents[i]; }
      assert bigger[..seenCount] == Seen();
      seenEvents, seenCapacity := bigger, capacity;
    }

    /** `v2_add_ack_event`: drops the oldest id at the limit; capacity never passes the limit. */
    method AddAckEvent(id: int)
      requires Valid()
      modifies this`ackIds, this`ackCount, this`ackCapacity, ackIds
      ensures Valid() && Acks() == AckAdd(old(Acks()), id) && Seen() == old(Seen())
      ensures ackIds == old(ackIds) || fresh(ackIds)
      ensures ackCapacity == if ackCount <= old(ackCapacity) then old(ackCapacity)
                             else if old(ackCapacity) == 0 then 16 else 2 * old(ackCapacity)
    {
      if ackCount >= V2_ACK_IDS_MAX { DropOldestAck(); }
      if ackCount >= ackCapacity && ackCapacity < V2_ACK_IDS_MAX {
        var capacity := if ackCapacity == 0 then V2_ACK_IDS_INIT_CAPACITY else ackCapacity * 2;
        if capacity > V2_ACK_IDS_MAX { capacity := V2_ACK_IDS_MAX; }
        GrowAcks(capacity);
      }
      StoreAck(id);
    }

    method StoreAck(id: int)
      requires Valid() && ackCount < ackCapacity
      modifies this`ackCount, ackIds
      ensures Valid() && Acks() == old(Acks()) + [id]
    {
      ackIds[ackCount] := id;
      ackCount := ackCount + 1;
    }

    method DropOldestAck()
      requires Valid() && ackCount > 0
      modifies this`ackCount, ackIds
      ensures Valid() && Acks() == old(Acks())[1..]
    {
      forall i | 0 <= i < ackCount - 1 { ackIds[i] := ackIds[i + 1]; }
      ackCount := ackCount - 1;
    }

    method GrowAcks(capacity: nat)
      requires Valid() && capacity in {16, 32, 64, 128, 256, 512, 1024} && ackCount <= capacity
      modifies this`ackIds, this`ackCapacity
      ensures Valid() && Acks() == old(Acks()) && ackCapacity == capacity && fresh(ackIds)
    {
      var bigger := new int[capacity](_ => 0);
      forall i | 0 <= i < ackCount { bigger[i] := ackIds[i]; }
      assert bigger[..ackCount] == Acks();
      ackIds, ackCapacity := bigger, capacity;
    }

    /** `v2_snapshot_ack_ids`: the oldest pending ids, as many as the caller's buffer holds. */
    method SnapshotAckIds(buf: array<int>) returns (count: nat)
      requires Valid() && buf != ackIds
      modifies buf
      ensures count <= buf.Length && count <= |Acks()|
      ensures buf[..count] == Acks()[..count]
      ensures |Acks()| <= buf.Length ==> buf[..count] == Acks()
    {
      count := if ackCount > buf.Length then buf.Length else ackCount;
      for i := 0 to count
        invariant buf[..i] == ackIds[..i]
        modifies buf
      {
        buf[i] := ackIds[i];
        assert buf[..i + 1] == buf[..i] + [ackIds[i]];
      }
    }

    /** `v2_clear_acks`: everything pending goes, the buffer stays. */
    method ClearAcks()
      requires Valid()
      modifies this`ackCount
      ensures Valid() && Acks() == [] && Seen() == old(Seen()) && ackIds == old(ackIds)
    {
      ackCount := 0;
    }
  }
}
