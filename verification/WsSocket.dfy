/** The connected stream under the client: any chunking, any signal, partial writes. */
module WsSocket {
  import opened Bytes

  /** Outcome of one `recv` or `send`: a count, EINTR, or the end of the connection. */
  datatype Outcome = Moved(n: nat) | Interrupted | Ended

  /** No signal comes before `n` more octets are read. */
  predicate Quiet(signals: seq<nat>, n: nat) {
    signals != [] ==> signals[0] >= n
  }

  /** The signals ahead once `n` more octets are read. */
  function Later(signals: seq<nat>, n: nat): seq<nat>
    requires Quiet(signals, n)
  {
    if signals == [] then [] else [signals[0] - n] + signals[1..]
  }

  class Socket {
    /** Bytes the peer still delivers before the connection ends. */
    var incoming: seq<byte>
    /** Bytes accepted for the peer so far. */
    var sent: seq<byte>
    /**
     * The signals that come while a read is blocked, each as the number of octets delivered between
     * the one before (or now) and it.
     */
    var signals: seq<nat>
    /** Signals still to come while a write is blocked. */
    var interrupts: nat
    /** Whether the connection accepts writes. */
    const writable: bool

    constructor (stream: seq<byte>, signals: seq<nat>, interrupts: nat, writable: bool)
      ensures incoming == stream && this.signals == signals && this.interrupts == interrupts
      ensures this.writable == writable && sent == []
    {
      incoming, sent, this.signals, this.interrupts, this.writable := stream, [], signals, interrupts, writable;
    }

    /** Interrupts where a signal is due; else delivers between one byte and `max`, as the kernel pleases. */
    method Recv(buf: array<byte>, at: nat, max: nat) returns (r: Outcome)
      requires 0 < max && at + max <= buf.Length
      modifies this`incoming, this`signals, buf
      ensures r.Moved? ==> 0 < r.n <= max && r.n <= |old(incoming)| && incoming == old(incoming)[r.n..]
      ensures r.Moved? ==> buf[..at + r.n] == old(buf[..at]) + old(incoming)[..r.n]
      ensures r.Moved? ==> buf[at + r.n..] == old(buf[at + r.n..])
      ensures r.Moved? ==> Quiet(old(signals), r.n) && signals == Later(old(signals), r.n)
      ensures !r.Moved? ==> incoming == old(incoming) && buf[..] == old(buf[..])
      ensures r.Interrupted? <==> !Quiet(old(signals), 1)
      ensures r.Interrupted? ==> signals == old(signals)[1..]
      ensures r.Ended? ==> incoming == [] && signals == old(signals)
    {
      if signals != [] && signals[0] == 0 {
        signals := signals[1..];
        return Interrupted;
      }
      if incoming == [] { return Ended; }
      var n: nat :| 0 < n <= max && n <= |incoming| && Quiet(signals, n);
      for i := 0 to n
        invariant incoming == old(incoming) && signals == old(signals)
        invariant buf[..at + i] == old(buf[..at]) + incoming[..i]
        invariant buf[at + i..] == old(buf[at + i..])
      {
        buf[at + i] := incoming[i];
        assert buf[..at + i + 1] == buf[..at + i] + [incoming[i]];
        assert buf[at + i + 1..] == old(buf[at + i..])[1..];
      }
      incoming, signals := incoming[n..], Later(signals, n);
      return Moved(n);
    }

    /** Takes between one byte and all of `data`. */
    method Send(data: seq<byte>) returns (r: Outcome)
      requires data != []
      modifies this`sent, this`interrupts
      ensures r.Moved? ==> 0 < r.n <= |data| && sent == old(sent) + data[..r.n]
      ensures !r.Moved? ==> sent == old(sent)
      ensures r.Interrupted? ==> interrupts < old(interrupts)
      ensures !r.Interrupted? ==> interrupts == old(interrupts)
      ensures r.Ended? <==> !writable && !r.Interrupted?
    {
      if interrupts > 0 {
        if * {
          interrupts := interrupts - 1;
          return Interrupted;
        }
      }
      if !writable { return Ended; }
      var n: nat :| 0 < n <= |data|;
      sent := sent + data[..n];
      return Moved(n);
    }
  }
}
