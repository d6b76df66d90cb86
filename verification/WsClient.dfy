/** The client's connection state and the methods of src/network/websocket.c that work on it. */
module WsClient {
  import opened Bytes
  import opened WsFrame
  import opened WsMessage
  import opened WsReceive
  import opened WsSocket

  const WS_PENDING_BUF_SIZE := 2048
  const WS_RESPONSE_SIZE := 2048
  const WS_HEADER_SIZE := 14
  const WS_FRAGMENT_INITIAL := 4096
  const CRLFCRLF: seq<byte> := [13, 10, 13, 10]

  // ---------------------------------------------------------------- the end of the handshake reply

  /** `strstr` for the header terminator in a string that ends at its first NUL. */
  function Terminator(s: seq<byte>): (r: Option<nat>)
    ensures r.Some? ==> r.value + 4 <= |s|
  {
    if |s| < 4 || s[0] == 0 then None
    else if s[..4] == CRLFCRLF then Some(0)
    else
      var t := Terminator(s[1..]);
      if t.None? then None else Some(t.value + 1)
  }

  /** Reading on neither hides a terminator nor moves it; one that is fully read is found. */
  lemma {:induction false} TerminatorStable(s: seq<byte>, whole: seq<byte>)
    requires s <= whole
    ensures Terminator(s).Some? ==> Terminator(whole) == Terminator(s)
    ensures Terminator(whole).Some? && Terminator(whole).value + 4 <= |s| ==> Terminator(s) == Terminator(whole)
  {
    if |s| >= 4 && s[0] != 0 && s[..4] != CRLFCRLF {
      assert s[1..] <= whole[1..] && s[..4] == whole[..4];
      TerminatorStable(s[1..], whole[1..]);
    } else if |s| >= 4 {
      assert s[..4] == whole[..4];
    }
  }

  predicate IsEnd(s: seq<byte>, i: nat) {
    i + 4 <= |s| && s[i] == 13 && s[i + 1] == 10 && s[i + 2] == 13 && s[i + 3] == 10
  }

  /** The first 13 10 13 10 is at `t`, and no NUL comes before it. */
  ghost predicate HeaderEndsAt(s: seq<byte>, t: nat) {
    IsEnd(s, t) && forall i :: 0 <= i < t ==> s[i] != 0 && !IsEnd(s, i)
  }

  /** What the search finds. */
  lemma {:induction false} TerminatorIff(s: seq<byte>, t: nat)
    ensures Terminator(s) == Some(t) <==> HeaderEndsAt(s, t)
  {
    if |s| >= 4 {
      assert IsEnd(s, 0) <==> s[..4] == CRLFCRLF by { assert s[..4] == [s[0], s[1], s[2], s[3]]; }
      if s[0] != 0 && !IsEnd(s, 0) && t > 0 {
        TerminatorIff(s[1..], t - 1);
        EndsLater(s, t);
      }
    }
  }

  lemma EndsLater(s: seq<byte>, t: nat)
    requires |s| >= 4 && s[0] != 0 && !IsEnd(s, 0) && t > 0
    ensures HeaderEndsAt(s, t) <==> HeaderEndsAt(s[1..], t - 1)
  {
    var u := s[1..];
    assert forall i :: 0 < i <= |s| ==> (IsEnd(s, i) <==> IsEnd(u, i - 1));
    if HeaderEndsAt(s, t) {
      forall i | 0 <= i < t - 1 ensures u[i] != 0 && !IsEnd(u, i) {
        assert s[i + 1] != 0 && !IsEnd(s, i + 1);
      }
    }
    if HeaderEndsAt(u, t - 1) {
      forall i | 0 <= i < t ensures s[i] != 0 && !IsEnd(s, i) {
        if i > 0 { assert u[i - 1] != 0 && !IsEnd(u, i - 1); }
      }
    }
  }

  /** A header that ends with its first 13 10 13 10, holds no NUL, and fits the response buffer. */
  ghost predicate IsHeader(header: seq<byte>) {
    && 4 <= |header| < 2048 && 0 !in header
    && IsEnd(header, |header| - 4) && forall i :: 0 <= i < |header| - 4 ==> !IsEnd(header, i)
  }

  lemma HeaderTerminates(header: seq<byte>)
    requires IsHeader(header)
    ensures Terminator(header) == Some(|header| - 4)
  {
    TerminatorIff(header, |header| - 4);
  }

  lemma TailOf(response: seq<byte>, stream: seq<byte>, from: nat, total: nat)
    requires from <= total <= |response| && total <= |stream| && response[..total] == stream[..total]
    ensures stream[from..] == response[from..total] + stream[total..]
  {
    assert response[from..total] == response[..total][from..];
  }

  /** The part of a stream the handshake can look at: one octet of the buffer is for the NUL. */
  function Visible(stream: seq<byte>): seq<byte> {
    if |stream| < WS_RESPONSE_SIZE then stream else stream[..WS_RESPONSE_SIZE - 1]
  }

  /** In numbers: the handshake sees at most 2047 octets. */
  lemma SeesUpTo2047(stream: seq<byte>)
    ensures Visible(stream) <= stream
    ensures |stream| <= 2047 ==> Visible(stream) == stream
    ensures |stream| > 2047 ==> |Visible(stream)| == 2047
  {
  }

  /**
   * What is left to read after the handshake: the stream behind the terminator, if no signal comes
   * before that is read; else whatever the reading loop had not got to when it stopped.
   */
  function Handoff(stream: seq<byte>, signals: seq<nat>): seq<byte> {
    var t := Terminator(Visible(stream));
    if t.Some? && Quiet(signals, t.value + 4) then stream[t.value + 4..]
    else if Quiet(signals, |Visible(stream)|) then stream[|Visible(stream)|..]
    else stream[signals[0]..]
  }

  /** Where the reading loop stops, given what it stops for. */
  lemma HandoffAt(stream: seq<byte>, signals: seq<nat>, total: nat)
    requires total <= |Visible(stream)| && Quiet(signals, total)
    requires Terminator(stream[..total]).Some? || total == |Visible(stream)| || !Quiet(signals, total + 1)
    ensures var t := Terminator(stream[..total]);
            Handoff(stream, signals) == if t.Some? then stream[t.value + 4..] else stream[total..]
  {
    assert Visible(stream)[..total] == stream[..total];
    TerminatorStable(stream[..total], Visible(stream));
  }

  /** Reading continues right behind a visible terminator exactly when no signal comes before it is read. */
  lemma HandoffIff(stream: seq<byte>, signals: seq<nat>)
    requires Terminator(Visible(stream)).Some?
    ensures var end := Terminator(Visible(stream)).value + 4;
            Handoff(stream, signals) == stream[end..] <==> Quiet(signals, end)
  {
  }

  /** A signal in the middle of the header leaves the rest of it in front of the frames. */
  lemma SignalBreaksHandoff(header: seq<byte>, rest: seq<byte>, at: nat)
    requires IsHeader(header) && at < |header|
    ensures Handoff(header + rest, [at]) == header[at..] + rest
  {
    HandoffPoint(header, rest);
  }

  // ---------------------------------------------------------------- frames to send

  /** `n >> 8 * k` */
  function ShiftRight8(n: nat, k: nat): nat {
    if k == 0 then n else ShiftRight8(n / 256, k - 1)
  }

  lemma {:induction false} BigDigit(n: nat, w: nat, i: nat)
    requires i < w
    ensures ToBig(n, w)[i] == ShiftRight8(n, w - 1 - i) % 256
  {
    if i < w - 1 { BigDigit(n / 256, w - 1, i); }
  }

  /** A frame as the client writes it: final, masked, in the shortest length form. */
  function ClientFrame(opcode: nat, payload: seq<byte>, key: Key): seq<byte>
    requires |payload| < 0x1_0000_0000_0000_0000
  {
    Encode(Frame(true, opcode % 16, payload), Some(key), MinimalForm(|payload|))
  }

  class Client {
    const socket: Socket
    const pendingBuf: array<byte>
    var pendingLen: nat
    var pendingOff: nat
    var fragmentBuf: array?<byte>
    var fragmentLen: nat
    var fragmentCapacity: nat
    var fragmentOpcode: nat
    var connected: bool
    var shouldStop: bool
    /** Messages handed to the dispatch code, in order. */
    var completed: seq<Message>

    constructor (socket: Socket)
      ensures this.socket == socket && PendingValid() && FragmentValid() && Assembly() == Idle
      ensures fresh(pendingBuf) && fragmentBuf == null && pendingLen == 0 && completed == []
    {
      this.socket := socket;
      pendingBuf := new byte[WS_PENDING_BUF_SIZE];
      pendingLen, pendingOff := 0, 0;
      fragmentBuf, fragmentLen, fragmentCapacity, fragmentOpcode := null, 0, 0, 0;
      connected, shouldStop, completed := false, false, [];
    }

    ghost predicate PendingValid()
      reads this`pendingLen, this`pendingOff
    {
      pendingBuf.Length == WS_PENDING_BUF_SIZE && pendingOff <= pendingLen <= WS_PENDING_BUF_SIZE
    }

    /** What exact reads still have ahead of them: the saved handshake tail, then the socket. */
    ghost function Stream(): seq<byte>
      requires PendingValid()
      reads this`pendingLen, this`pendingOff, pendingBuf, socket
    {
      pendingBuf[pendingOff..pendingLen] + socket.incoming
    }

    /**
     * The accumulation buffer: at most 2 MiB, and while a message is open it holds at most 1 MiB
     * with an octet to spare for a terminator.
     */
    ghost predicate FragmentValid()
      reads this`fragmentBuf, this`fragmentLen, this`fragmentCapacity, this`fragmentOpcode
    {
      && fragmentBuf != pendingBuf
      && fragmentCapacity == (if fragmentBuf == null then 0 else fragmentBuf.Length)
      && fragmentCapacity <= 2 * WS_FRAGMENT_MAX_SIZE
      && (fragmentOpcode == 0 ==> fragmentLen == 0)
      && (fragmentOpcode != 0 ==>
            && fragmentOpcode <= 2 && fragmentBuf != null
            && fragmentLen <= WS_FRAGMENT_MAX_SIZE && fragmentLen + 1 <= fragmentCapacity)
    }

    ghost function Assembly(): WsMessage.Assembly
      requires FragmentValid()
      reads this`fragmentBuf, this`fragmentLen, this`fragmentCapacity, this`fragmentOpcode, fragmentBuf
    {
      if fragmentOpcode == 0 then Idle else InProgress(fragmentOpcode, fragmentBuf[..fragmentLen])
    }

    // -------------------------------------------------------------- handshake handoff

    /**
     * The reading half of `ws_handshake`: for every chunking, exact reads continue where `Handoff`
     * says, and it fails when it got nothing.
     */
    method ReadResponse() returns (ok: bool)
      requires pendingBuf.Length == WS_PENDING_BUF_SIZE
      modifies this`pendingLen, this`pendingOff, pendingBuf, socket`incoming, socket`signals
      ensures PendingValid()
      ensures ok <==> old(socket.incoming) != [] && Quiet(old(socket.signals), 1)
      ensures Stream() == Handoff(old(socket.incoming), old(socket.signals))
    {
      pendingLen, pendingOff := 0, 0;
      var response := new byte[WS_RESPONSE_SIZE];
      var total := FillResponse(response);
      ghost var stream := old(socket.incoming);
      HandoffAt(stream, old(socket.signals), total);
      if total == 0 { return false; }
      ok := SplitResponse(response, total, stream);
    }

    /** Finds the end of the header in what was read, and saves what lies behind it. */
    method SplitResponse(response: array<byte>, total: nat, ghost stream: seq<byte>) returns (ok: bool)
      requires pendingBuf.Length == WS_PENDING_BUF_SIZE && response != pendingBuf && pendingLen == pendingOff == 0
      requires response.Length == WS_RESPONSE_SIZE && total < WS_RESPONSE_SIZE && total <= |stream|
      requires response[..total] == stream[..total] && socket.incoming == stream[total..]
      modifies this`pendingLen, this`pendingOff, pendingBuf, response
      ensures ok && PendingValid()
      ensures var t := Terminator(stream[..total]);
              Stream() == if t.Some? then stream[t.value + 4..] else stream[total..]
    {
      response[total] := 0;
      assert response[..total] == stream[..total];
      var end := Terminator(response[..total]);
      if end.Some? {
        var headerBytes := end.value + 4;
        var extra := total - headerBytes;
        TailOf(response[..], stream, headerBytes, total);
        if extra > 0 {
          if extra > WS_PENDING_BUF_SIZE { return false; }
          SaveTail(response, headerBytes, extra);
        }
      }
      return true;
    }

    /** Keeps the octets that came in behind the header for the exact reads. */
    method SaveTail(response: array<byte>, from: nat, extra: nat)
      requires pendingBuf.Length == WS_PENDING_BUF_SIZE && response != pendingBuf
      requires from + extra <= response.Length && extra <= WS_PENDING_BUF_SIZE
      modifies this`pendingLen, this`pendingOff, pendingBuf
      ensures pendingOff == 0 && pendingLen == extra
      ensures pendingBuf[..extra] == response[from..from + extra]
    {
      for i := 0 to extra
        invariant pendingBuf[..i] == response[from..from + i]
      {
        pendingBuf[i] := response[from + i];
        assert pendingBuf[..i + 1] == pendingBuf[..i] + [response[from + i]];
      }
      pendingLen, pendingOff := extra, 0;
    }

    /** Reads until the terminator shows up, the buffer is full, a signal comes, or the stream ends. */
    method FillResponse(response: array<byte>) returns (total: nat)
      requires response.Length == WS_RESPONSE_SIZE && response != pendingBuf
      modifies response, socket`incoming, socket`signals
      ensures total <= |Visible(old(socket.incoming))| && Quiet(old(socket.signals), total)
      ensures response[..total] == old(socket.incoming)[..total]
      ensures socket.incoming == old(socket.incoming)[total..]
      ensures || Terminator(response[..total]).Some?
              || total == |Visible(old(socket.incoming))|
              || !Quiet(old(socket.signals), total + 1)
      ensures total == 0 <==> old(socket.incoming) == [] || !Quiet(old(socket.signals), 1)
    {
      total := 0;
      ghost var stream, signals := socket.incoming, socket.signals;
      while total < WS_RESPONSE_SIZE - 1
        invariant total < WS_RESPONSE_SIZE && total <= |stream|
        invariant response[..total] == stream[..total] && socket.incoming == stream[total..]
        invariant Quiet(signals, total) && socket.signals == Later(signals, total)
      {
        var r := socket.Recv(response, total, WS_RESPONSE_SIZE - 1 - total);
        if !r.Moved? { break; }
        total := total + r.n;
        response[total] := 0;
        if Terminator(response[..total]).Some? { break; }
      }
    }

    // -------------------------------------------------------------- exact reads

    /** `read_full`: exactly `len` bytes, from the saved tail first, whatever the chunking. */
    method ReadFull(buf: array<byte>, len: nat) returns (ok: bool)
      requires PendingValid() && len <= buf.Length && buf != pendingBuf
      modifies this`pendingOff, socket`incoming, socket`signals, buf
      ensures PendingValid()
      ensures ok <==> len <= |old(Stream())|
      ensures ok ==> buf[..len] == old(Stream())[..len] && Stream() == old(Stream())[len..]
      ensures !ok ==> Stream() == []
    {
      ghost var all := Stream();
      var got := DrainPending(buf, len);
      ok := true;
      if got < len {
        assert Stream() == socket.incoming;
        ok := FillFromSocket(buf, got, len);
        assert Stream() == socket.incoming;
      }
      assert ok ==> buf[..len] + Stream() == all;
    }

    /** The receive loop of `read_full`: a signal is retried, the end of the stream is an error. */
    method FillFromSocket(buf: array<byte>, from: nat, len: nat) returns (ok: bool)
      requires from <= len <= buf.Length && buf != pendingBuf
      modifies socket`incoming, socket`signals, buf
      ensures ok <==> len - from <= |old(socket.incoming)|
      ensures ok ==> buf[..len] + socket.incoming == old(buf[..from]) + old(socket.incoming)
      ensures !ok ==> socket.incoming == []
    {
      var got: nat := from;
      ghost var all := buf[..from] + socket.incoming;
      while got < len
        invariant from <= got <= len
        invariant buf[..got] + socket.incoming == all
        decreases len - got, |socket.signals|
      {
        ghost var before := socket.incoming;
        var r := socket.Recv(buf, got, len - got);
        if r.Ended? { return false; }
        if r.Moved? {
          assert before == before[..r.n] + before[r.n..];
          got := got + r.n;
        }
      }
      return true;
    }

    /** Saved octets first, as far as they go. */
    method DrainPending(buf: array<byte>, len: nat) returns (got: nat)
      requires PendingValid() && len <= buf.Length && buf != pendingBuf
      modifies this`pendingOff, buf
      ensures PendingValid() && got <= len && (got == len || pendingOff == pendingLen)
      ensures buf[..got] + Stream() == old(Stream())
    {
      got := 0;
      ghost var first := pendingOff;
      while got < len && pendingOff < pendingLen
        invariant PendingValid() && got <= len && pendingOff == first + got
        invariant buf[..got] == pendingBuf[first..pendingOff]
        decreases len - got
      {
        buf[got] := pendingBuf[pendingOff];
        assert buf[..got + 1] == buf[..got] + [pendingBuf[pendingOff]];
        got, pendingOff := got + 1, pendingOff + 1;
      }
      assert pendingBuf[first..pendingLen] == pendingBuf[first..pendingOff] + pendingBuf[pendingOff..pendingLen];
    }

    // -------------------------------------------------------------- the frame reader

    /** The extended length field, if the 7-bit code announces one. */
    method ReadLengthField(code: nat) returns (ok: bool, len: nat)
      requires PendingValid() && code < 128
      modifies this`pendingOff, socket`incoming, socket`signals
      ensures PendingValid()
      ensures ok <==> ReadLength(code, old(Stream())).Some?
      ensures ok ==> ReadLength(code, old(Stream())) == Some((len, Stream()))
    {
      var ext := new byte[8];
      len := code;
      if code == 126 {
        ok := ReadFull(ext, 2);
        if !ok { return; }
        var hi: nat, lo: nat := ext[0], ext[1];
        len := hi * 256 + lo;
        assert ext[..2] == [ext[0], ext[1]];
        assert FromBig([ext[0], ext[1]]) == FromBig([ext[0]]) * 256 + ext[1];
      } else if code == 127 {
        ok := ReadFull(ext, 8);
        if !ok { return; }
        len := 0;
        for i := 0 to 8
          invariant len == FromBig(ext[..i])
        {
          assert ext[..i + 1][..i] == ext[..i];
          len := len * 256 + ext[i];
        }
      }
      ok := true;
    }

    /** Masking key and payload; a payload over `cap` is an error, not a truncation. */
    method ReadPayload(masked: bool, len: nat, data: array<byte>, cap: nat) returns (ok: bool)
      requires PendingValid() && cap <= data.Length && data != pendingBuf
      modifies this`pendingOff, socket`incoming, socket`signals, data
      ensures PendingValid()
      ensures ok <==> ReadBody(masked, len, old(Stream()), cap).Some?
      ensures ok ==> len <= cap && ReadBody(masked, len, old(Stream()), cap) == Some((data[..len], Stream()))
    {
      if !masked {
        ok := ReadUnmasked(len, data, cap);
        return;
      }
      var mask := new byte[4];
      ok := ReadFull(mask, 4);
      if !ok { return; }
      assert mask[..] == mask[..4];
      ok := ReadUnmasked(len, data, cap);
      if ok { ApplyMask(data, len, mask[..]); }
    }

    method ReadUnmasked(len: nat, data: array<byte>, cap: nat) returns (ok: bool)
      requires PendingValid() && cap <= data.Length && data != pendingBuf
      modifies this`pendingOff, socket`incoming, socket`signals, data
      ensures PendingValid()
      ensures ok <==> ReadPlain(len, old(Stream()), cap).Some?
      ensures ok ==> len <= cap && ReadPlain(len, old(Stream()), cap) == Some((data[..len], Stream()))
    {
      if len > cap { return false; }
      ok := ReadFull(data, len);
    }

    method RecvRest(fin: bool, opcode: nat, masked: bool, code: nat, data: array<byte>, cap: nat)
      returns (ok: bool, len: nat)
      requires PendingValid() && code < 128 && cap <= data.Length && data != pendingBuf
      modifies this`pendingOff, socket`incoming, socket`signals, data
      ensures PendingValid()
      ensures ok <==> ReadRest(fin, opcode, masked, code, old(Stream()), cap).Some?
      ensures ok ==> len <= cap
      ensures ok ==>
        ReadRest(fin, opcode, masked, code, old(Stream()), cap) == Some((Frame(fin, opcode, data[..len]), Stream()))
    {
      ok, len := ReadLengthField(code);
      if !ok { return; }
      if IsControl(opcode) {
        if len > 125 { ok := false; return; }
        if !fin { ok := false; return; }
      }
      ok := ReadPayload(masked, len, data, cap);
    }

    method ReadHeader() returns (ok: bool, b0: byte, b1: byte)
      requires PendingValid()
      modifies this`pendingOff, socket`incoming, socket`signals
      ensures PendingValid()
      ensures ok <==> |old(Stream())| >= 2
      ensures ok ==> b0 == old(Stream())[0] && b1 == old(Stream())[1] && Stream() == old(Stream())[2..]
    {
      var header := new byte[2];
      ok := ReadFull(header, 2);
      b0, b1 := header[0], header[1];
      assert ok ==> header[..2][0] == b0 && header[..2][1] == b1;
    }

    /** `ws_recv_frame`: succeeds with the next frame of the stream exactly when `Read` has one. */
    method RecvFrame(data: array<byte>, cap: nat) returns (ok: bool, opcode: nat, fin: bool, len: nat)
      requires PendingValid() && cap <= data.Length && data != pendingBuf
      modifies this`pendingOff, socket`incoming, socket`signals, data
      ensures PendingValid()
      ensures ok <==> Read(old(Stream()), cap).Some?
      ensures ok ==> len <= cap && Read(old(Stream()), cap) == Some((Frame(fin, opcode, data[..len]), Stream()))
    {
      opcode, fin, len := 0, false, 0;
      var b0: byte, b1: byte;
      ok, b0, b1 := ReadHeader();
      if !ok { return; }
      fin, opcode := b0 >= 128, b0 % 16;
      if b0 / 16 % 8 != 0 { ok := false; return; }
      if IsReserved(opcode) { ok := false; return; }
      ok, len := RecvRest(fin, opcode, b1 >= 128, b1 % 128, data, cap);
    }

    // -------------------------------------------------------------- the frame writer

    /** `send_full`: all of the data, in as many writes as it takes. */
    method SendFull(data: seq<byte>) returns (ok: bool)
      modifies socket`sent, socket`interrupts
      ensures ok <==> socket.writable || data == []
      ensures socket.sent == if ok then old(socket.sent) + data else old(socket.sent)
    {
      var done: nat := 0;
      while done < |data|
        invariant done <= |data| && (done > 0 ==> socket.writable)
        invariant socket.sent == old(socket.sent) + data[..done]
        decreases |data| - done, socket.interrupts
      {
        var r := socket.Send(data[done..]);
        if r.Ended? { return false; }
        if r.Moved? {
          assert data[..done + r.n] == data[..done] + data[done..][..r.n];
          done := done + r.n;
        }
      }
      assert data[..done] == data;
      return true;
    }

    /** `ws_send_frame`: one whole masked frame, or nothing. */
    method SendFrame(opcode: nat, data: array<byte>, len: nat) returns (ok: bool, key: Key)
      requires len <= data.Length && len < 0x1_0000_0000_0000_0000
      modifies socket`sent, socket`interrupts
      ensures ok <==> socket.writable
      ensures socket.sent ==
              if ok then old(socket.sent) + ClientFrame(opcode, data[..len], key) else old(socket.sent)
    {
      var frame := new byte[WS_HEADER_SIZE + len];
      key := RandomKey();
      var n := WriteHeader(frame, opcode, len);
      n := WriteBody(frame, n, data, len, key);
      ClientFrameParts(opcode, data[..len], key);
      ok := SendFull(frame[..n]);
    }

    // -------------------------------------------------------------- the fragment accumulator

    /** `realloc` to a larger accumulation buffer. */
    method GrowFragment(capacity: nat)
      requires FragmentValid() && fragmentCapacity < capacity <= 2 * WS_FRAGMENT_MAX_SIZE
      modifies this`fragmentBuf, this`fragmentCapacity
      ensures FragmentValid() && Assembly() == old(Assembly())
      ensures fragmentBuf != null && fresh(fragmentBuf) && fragmentCapacity == capacity
    {
      var bigger := new byte[capacity];
      for i := 0 to fragmentLen
        invariant fragmentOpcode != 0 ==> bigger[..i] == fragmentBuf[..i]
        modifies bigger
      {
        bigger[i] := fragmentBuf[i];
        assert bigger[..i + 1] == bigger[..i] + [fragmentBuf[i]];
      }
      fragmentBuf, fragmentCapacity := bigger, capacity;
    }

    /** `memcpy` behind what the buffer already holds. */
    method AppendFragment(data: array<byte>, len: nat)
      requires fragmentBuf != null && data != fragmentBuf && len <= data.Length
      requires fragmentLen + len <= fragmentBuf.Length
      modifies this`fragmentLen, fragmentBuf
      ensures fragmentLen == old(fragmentLen) + len
      ensures fragmentBuf[..fragmentLen] == old(fragmentBuf[..fragmentLen]) + data[..len]
    {
      for i := 0 to len
        invariant fragmentBuf[..fragmentLen + i] == old(fragmentBuf[..fragmentLen]) + data[..i]
        modifies fragmentBuf
      {
        fragmentBuf[fragmentLen + i] := data[i];
        assert data[..i + 1] == data[..i] + [data[i]];
        assert fragmentBuf[..fragmentLen + i + 1] == fragmentBuf[..fragmentLen + i] + [data[i]];
      }
      fragmentLen := fragmentLen + len;
    }

    method ResetFragment()
      requires FragmentValid()
      modifies this`fragmentLen, this`fragmentOpcode
      ensures FragmentValid() && Assembly() == Idle
    {
      fragmentLen, fragmentOpcode := 0, 0;
    }

    /** A first fragment. */
    method StartFragment(opcode: nat, data: array<byte>, len: nat)
      requires FragmentValid() && Assembly() == Idle && (opcode == 1 || opcode == 2)
      requires len <= data.Length && data != fragmentBuf && len <= WS_FRAGMENT_MAX_SIZE
      modifies this`fragmentBuf, this`fragmentLen, this`fragmentCapacity, this`fragmentOpcode, fragmentBuf
      ensures FragmentValid() && Assembly() == InProgress(opcode, data[..len])
      ensures fragmentBuf == old(fragmentBuf) || fresh(fragmentBuf)
    {
      var needed := len + 1;
      var capacity := if needed > WS_FRAGMENT_INITIAL then needed else WS_FRAGMENT_INITIAL;
      if fragmentBuf == null || fragmentCapacity < capacity {
        GrowFragment(capacity);
      }
      AppendFragment(data, len);
      fragmentOpcode := opcode;
    }

    /** A continuation that keeps the message within the limit. */
    method ContinueFragment(data: array<byte>, len: nat)
      requires FragmentValid() && Assembly().InProgress?
      requires len <= data.Length && data != fragmentBuf && fragmentLen + len <= WS_FRAGMENT_MAX_SIZE
      modifies this`fragmentBuf, this`fragmentLen, this`fragmentCapacity, fragmentBuf
      ensures FragmentValid()
      ensures Assembly() == InProgress(old(fragmentOpcode), old(Assembly()).data + data[..len])
      ensures fragmentBuf == old(fragmentBuf) || fresh(fragmentBuf)
    {
      var needed := fragmentLen + len + 1;
      if fragmentCapacity < needed {
        var capacity := fragmentCapacity * 2;
        if capacity < needed { capacity := needed; }
        GrowFragment(capacity);
      }
      AppendFragment(data, len);
    }

    /** How the return value and out-parameters of the accumulator report an outcome. */
    ghost predicate Reports(o: WsMessage.Outcome, r: int, out: array<byte>, outLen: nat, outOpcode: nat)
      reads out
    {
      match o
      case Pending(_) => r == 0
      case Failed(_) => r == -1
      case Complete(m) => r == 1 && outLen < out.Length && out[..outLen] == m.data && outOpcode == m.opcode
    }

    /**
     * `ws_fragment_accumulate`: the step of `WsMessage.Accumulate`; a completed message always has
     * an octet to spare behind it.
     */
    method AccumulateFrame(opcode: nat, fin: bool, data: array<byte>, len: nat)
      returns (r: int, out: array<byte>, outLen: nat, outOpcode: nat)
      requires FragmentValid() && len < data.Length && data != fragmentBuf
      modifies this`fragmentBuf, this`fragmentLen, this`fragmentCapacity, this`fragmentOpcode, fragmentBuf
      ensures FragmentValid() && (fragmentBuf == old(fragmentBuf) || fresh(fragmentBuf))
      ensures out == data || out == fragmentBuf
      ensures var o := Accumulate(old(Assembly()), Frame(fin, opcode, data[..len]));
              Assembly() == Next(o) && Reports(o, r, out, outLen, outOpcode)
    {
      r, out, outLen, outOpcode := -1, data, 0, 0;
      if fin && opcode != 0 {
        if fragmentOpcode != 0 {
          ResetFragment();
          return;
        }
        return 1, data, len, opcode;
      }
      if !fin && (opcode == 1 || opcode == 2) {
        if fragmentOpcode != 0 {
          ResetFragment();
          return;
        }
        if len > WS_FRAGMENT_MAX_SIZE { return; }
        StartFragment(opcode, data, len);
        r := 0;
        return;
      }
      if opcode == 0 {
        if fragmentOpcode == 0 { return; }
        if fragmentLen + len > WS_FRAGMENT_MAX_SIZE {
          ResetFragment();
          return;
        }
        ContinueFragment(data, len);
        if !fin {
          r := 0;
          return;
        }
        r, out, outLen, outOpcode := 1, fragmentBuf, fragmentLen, fragmentOpcode;
        ResetFragment();
      }
    }

    // -------------------------------------------------------------- the receive loop

    /** Everything the loop relies on between frames. */
    ghost predicate Valid()
      reads this
    {
      PendingValid() && FragmentValid()
    }

    /**
     * One data frame through the accumulator; a completed message is handed on, a text message
     * with its terminator written behind it. `more` tells whether the connection lives on.
     */
    method TakeDataFrame(opcode: nat, fin: bool, buffer: array<byte>, len: nat)
      returns (more: bool, ghost messages: seq<Message>)
      requires FragmentValid() && len < buffer.Length && buffer != fragmentBuf && buffer != pendingBuf
      modifies this`fragmentBuf, this`fragmentLen, this`fragmentCapacity, this`fragmentOpcode, this`completed
      modifies fragmentBuf, buffer
      ensures FragmentValid() && (fragmentBuf == old(fragmentBuf) || fresh(fragmentBuf))
      ensures var o := Accumulate(old(Assembly()), Frame(fin, opcode, old(buffer[..len])));
              && more == !o.Failed?
              && Assembly() == Next(o)
              && messages == (if o.Complete? then [o.msg] else [])
      ensures completed == old(completed) + messages
    {
      var r, out, outLen, outOpcode := AccumulateFrame(opcode, fin, buffer, len);
      messages := [];
      if r < 0 { return false, []; }
      if r == 1 {
        messages := [Message(outOpcode, out[..outLen])];
        completed := completed + [Message(outOpcode, out[..outLen])];
        if outOpcode == 0x01 { out[outLen] := 0; }
      }
      more := true;
    }

    /** A ping is answered with a pong of the same payload; whether it went out is not looked at. */
    method AnswerPing(buffer: array<byte>, len: nat) returns (ghost reply: Sent)
      requires len <= buffer.Length && len <= 125
      modifies socket`sent, socket`interrupts
      ensures IsPong(reply) && reply.frame.payload == buffer[..len]
      ensures socket.sent == if socket.writable then old(socket.sent) + Octets(reply) else old(socket.sent)
    {
      var ok, key := SendFrame(0x0A, buffer, len);
      reply := Sent(Frame(true, 0x0A, buffer[..len]), Some(key), MinimalForm(len));
    }

    /** What the peer has been sent once `replies` went out, on a connection that takes writes. */
    ghost function SentAfter(before: seq<byte>, replies: seq<Sent>): seq<byte>
    {
      if socket.writable then before + Wire(replies) else before
    }

    /** What the loop still makes of the stream. */
    ghost function Outlook(): Received
      requires Valid()
      reads this, pendingBuf, fragmentBuf, socket
    {
      Receive(Stream(), Assembly())
    }

    /** One turn of the loop: a frame read and dealt with, or the end of the connection. */
    method ReceiveTurn(buffer: array<byte>)
      returns (more: bool, ghost messages: seq<Message>, ghost replies: seq<Sent>, ghost rest: Received)
      requires Valid() && buffer.Length == WS_MAX_MESSAGE_SIZE + 1 && buffer != pendingBuf && buffer != fragmentBuf
      modifies this`pendingOff, socket`incoming, socket`signals, socket`sent, socket`interrupts, buffer
      modifies this`fragmentBuf, this`fragmentLen, this`fragmentCapacity, this`fragmentOpcode, this`completed
      modifies fragmentBuf
      ensures Valid() && (fragmentBuf == old(fragmentBuf) || fresh(fragmentBuf))
      ensures Progress(old(Outlook()), messages, replies, rest,
                       old(completed), completed, old(socket.sent), socket.sent)
      ensures more ==> |Stream()| < |old(Stream())| && rest == Outlook()
      ensures !more ==> rest.completed == [] && rest.pongs == []
    {
      messages, replies, rest := [], [], Outlook();
      NoProgress(rest, completed, socket.sent);
      ghost var s := Stream();
      var ok, opcode, fin, len := RecvFrame(buffer, WS_MAX_MESSAGE_SIZE);
      if !ok { return false, [], [], rest; }
      more, messages, replies, rest := HandleFrame(opcode, fin, buffer, len, s);
    }

    /** What the loop does with a frame it has read off the stream `s`. */
    method HandleFrame(opcode: nat, fin: bool, buffer: array<byte>, len: nat, ghost s: seq<byte>)
      returns (more: bool, ghost messages: seq<Message>, ghost replies: seq<Sent>, ghost rest: Received)
      requires Valid() && len < buffer.Length && buffer != pendingBuf && buffer != fragmentBuf
      requires Read(s, WS_MAX_MESSAGE_SIZE) == Some((Frame(fin, opcode, buffer[..len]), Stream()))
      modifies socket`sent, socket`interrupts, buffer
      modifies this`fragmentBuf, this`fragmentLen, this`fragmentCapacity, this`fragmentOpcode, this`completed
      modifies fragmentBuf
      ensures Valid() && (fragmentBuf == old(fragmentBuf) || fresh(fragmentBuf))
      ensures Progress(old(Receive(s, Assembly())), messages, replies, rest,
                       old(completed), completed, old(socket.sent), socket.sent)
      ensures Stream() == old(Stream())
      ensures more ==> rest == Outlook()
      ensures !more ==> rest.completed == [] && rest.pongs == []
    {
      messages, replies, rest := [], [], Receive(s, Assembly());
      NoProgress(rest, completed, socket.sent);
      ReceiveUnfold(s, Assembly(), Frame(fin, opcode, buffer[..len]), Stream());
      if opcode == 0x08 { return false, [], [], rest; }
      if opcode == 0x09 {
        PingIsShort(s);
        ghost var reply := AnswerPing(buffer, len);
        WireOfOne(reply);
        return true, [], [reply], Outlook();
      }
      if opcode == 0x0A { return true, [], [], rest; }
      more, messages := TakeDataFrame(opcode, fin, buffer, len);
      if more { rest := Outlook(); }
    }

    /** The turns of the loop until the connection is closed. */
    method ReceiveTurns(buffer: array<byte>) returns (ghost messages: seq<Message>, ghost replies: seq<Sent>)
      requires Valid() && connected && !shouldStop
      requires buffer.Length == WS_MAX_MESSAGE_SIZE + 1 && buffer != pendingBuf && buffer != fragmentBuf
      modifies this`pendingOff, socket`incoming, socket`signals, socket`sent, socket`interrupts, this`connected, buffer
      modifies this`fragmentBuf, this`fragmentLen, this`fragmentCapacity, this`fragmentOpcode, this`completed
      modifies fragmentBuf
      ensures Valid() && !connected && (fragmentBuf == old(fragmentBuf) || fresh(fragmentBuf))
      ensures completed == old(completed) + messages && messages == old(Outlook()).completed
      ensures Answers(replies, old(Outlook()).pongs)
      ensures socket.sent == SentAfter(old(socket.sent), replies)
    {
      ghost var all, rest := Outlook(), Outlook();
      ghost var before, sent := completed, socket.sent;
      messages, replies := [], [];
      NoProgress(all, completed, socket.sent);
      while !shouldStop && connected
        invariant Valid() && !shouldStop && buffer != fragmentBuf
        invariant fragmentBuf == old(fragmentBuf) || fresh(fragmentBuf)
        invariant Progress(all, messages, replies, rest, before, completed, sent, socket.sent)
        invariant if connected then rest == Outlook() else rest.completed == [] && rest.pongs == []
        decreases connected, |Stream()|
      {
        ghost var completed', sent' := completed, socket.sent;
        var more, ms, rs, rest' := ReceiveTurn(buffer);
        ProgressOn(all, messages, replies, rest, before, completed', sent, sent',
                   ms, rs, rest', completed, socket.sent);
        messages, replies, rest := messages + ms, replies + rs, rest';
        if !more { connected := false; }
      }
      FollowsToTheEnd(all, messages, replies, rest);
    }

    /** What has been handed on and sent since the start is what `whole` lists before `rest`. */
    ghost predicate Progress(whole: Received, ms: seq<Message>, rs: seq<Sent>, rest: Received,
                             completed0: seq<Message>, completed1: seq<Message>, sent0: seq<byte>, sent1: seq<byte>)
    {
      Follows(whole, ms, rs, rest) && completed1 == completed0 + ms && sent1 == SentAfter(sent0, rs)
    }

    lemma NoProgress(whole: Received, completed: seq<Message>, sent: seq<byte>)
      ensures Progress(whole, [], [], whole, completed, completed, sent, sent)
    {
      FollowsNothing(whole);
      assert completed + [] == completed && sent + [] == sent;
    }

    lemma ProgressOn(whole: Received, ms: seq<Message>, rs: seq<Sent>, mid: Received,
                     completed0: seq<Message>, completed1: seq<Message>, sent0: seq<byte>, sent1: seq<byte>,
                     ms': seq<Message>, rs': seq<Sent>, rest: Received, completed2: seq<Message>, sent2: seq<byte>)
      requires Progress(whole, ms, rs, mid, completed0, completed1, sent0, sent1)
      requires Progress(mid, ms', rs', rest, completed1, completed2, sent1, sent2)
      ensures Progress(whole, ms + ms', rs + rs', rest, completed0, completed2, sent0, sent2)
    {
      FollowsOn(whole, ms, rs, mid, ms', rs', rest);
      assert completed0 + ms + ms' == completed0 + (ms + ms');
      WireConcat(rs, rs');
      Assoc(sent0, Wire(rs), Wire(rs'));
    }

    /**
     * `ws_recv_thread`, when nothing asks it to stop: it hands on exactly the messages and answers
     * exactly the pings that `Receive` finds in the stream, then leaves the connection closed.
     */
    method ReceiveLoop() returns (ghost replies: seq<Sent>)
      requires Valid() && connected && !shouldStop
      modifies this`pendingOff, socket`incoming, socket`signals, socket`sent, socket`interrupts, this`connected
      modifies this`fragmentBuf, this`fragmentLen, this`fragmentCapacity, this`fragmentOpcode, this`completed
      modifies fragmentBuf
      ensures Valid() && !connected
      ensures var r := Receive(old(Stream()), Idle);
              completed == old(completed) + r.completed && Answers(replies, r.pongs)
      ensures socket.sent == SentAfter(old(socket.sent), replies)
    {
      var buffer := new byte[WS_MAX_MESSAGE_SIZE + 1];
      fragmentLen, fragmentOpcode := 0, 0;
      assert Outlook() == Receive(old(Stream()), Idle);
      ghost var messages;
      messages, replies := ReceiveTurns(buffer);
    }

    /**
     * A connection from its handshake reply on, end to end. The peer sends a reply `header` that
     * ends with its first 13 10 13 10 and fits the response buffer, then any legal framing of `ms`
     * with any pings and pongs in between, then anything at all, such as a Close frame; the kernel
     * cuts the bytes as it likes, and signals come at any time but during the header. The loop hands
     * on exactly `ms` and what is behind them, and the peer can read back exactly one pong per ping.
     */
    method Session(ghost header: seq<byte>, ghost ms: seq<Message>, ghost splits: seq<seq<Frame>>,
                   ghost xs: seq<Sent>, ghost behind: seq<byte>)
      requires pendingBuf.Length == WS_PENDING_BUF_SIZE && FragmentValid() && !shouldStop
      requires socket.incoming == header + (Wire(xs) + behind) && Quiet(socket.signals, |header|)
      requires IsHeader(header)
      requires SplitsAll(ms, splits) && AllSendable(xs) && DataFrames(xs) == Concat(splits)
      modifies this, pendingBuf, fragmentBuf, socket
      ensures !connected && completed == old(completed) + (ms + Receive(behind, Idle).completed)
      ensures old(socket.sent) <= socket.sent
      ensures socket.writable ==>
        ReadAll(socket.sent[|old(socket.sent)|..], WS_MAX_MESSAGE_SIZE)
        == Some(PongFrames(PingPayloads(xs) + Receive(behind, Idle).pongs))
    {
      HandoffBehind(header, Wire(xs) + behind, socket.signals);
      EndToEnd(ms, splits, xs, behind);
      var ok := ReadResponse();
      assert Stream() == Wire(xs) + behind;
      connected := true;
      ghost var sent := socket.sent;
      var replies := ReceiveLoop();
      PeerReadsAnswers(replies, PingPayloads(xs) + Receive(behind, Idle).pongs);
      assert socket.writable ==> socket.sent[|sent|..] == Wire(replies);
    }

    /** The same when the peer ends with a Close frame: exactly `ms`, and nothing from behind the Close. */
    method ClosedSession(ghost header: seq<byte>, ghost ms: seq<Message>, ghost splits: seq<seq<Frame>>,
                         ghost xs: seq<Sent>, ghost close: Frame, ghost key: Option<Key>, ghost form: LengthForm,
                         ghost behind: seq<byte>)
      requires pendingBuf.Length == WS_PENDING_BUF_SIZE && FragmentValid() && !shouldStop
      requires close.opcode == 0x08 && Acceptable(close) && FormFits(form, |close.payload|)
      requires socket.incoming == header + (Wire(xs) + (Encode(close, key, form) + behind))
      requires IsHeader(header)
      requires Quiet(socket.signals, |header|)
      requires SplitsAll(ms, splits) && AllSendable(xs) && DataFrames(xs) == Concat(splits)
      modifies this, pendingBuf, fragmentBuf, socket
      ensures completed == old(completed) + ms && !connected
      ensures old(socket.sent) <= socket.sent
      ensures socket.writable ==>
        ReadAll(socket.sent[|old(socket.sent)|..], WS_MAX_MESSAGE_SIZE) == Some(PongFrames(PingPayloads(xs)))
    {
      CloseEnds(close, key, form, behind, Idle);
      Session(header, ms, splits, xs, Encode(close, key, form) + behind);
      assert ms + [] == ms && PingPayloads(xs) + [] == PingPayloads(xs);
    }
  }

  lemma HandoffBehind(header: seq<byte>, rest: seq<byte>, signals: seq<nat>)
    requires IsHeader(header) && Quiet(signals, |header|)
    ensures header + rest != [] && Handoff(header + rest, signals) == rest
  {
    HandoffPoint(header, rest);
  }

  lemma HandoffPoint(header: seq<byte>, rest: seq<byte>)
    requires IsHeader(header)
    ensures var stream := header + rest;
            Terminator(Visible(stream)) == Some(|header| - 4) && stream[|header|..] == rest && stream != []
  {
    HeaderTerminates(header);
    assert header <= Visible(header + rest);
    TerminatorStable(header, Visible(header + rest));
  }

  /** Any four octets: the quality of the randomness is not part of the model. */
  method RandomKey() returns (key: Key) {
    var a: byte :| 0 <= a < 256;
    var b: byte :| 0 <= b < 256;
    var c: byte :| 0 <= c < 256;
    var d: byte :| 0 <= d < 256;
    key := [a, b, c, d];
  }

  function HeaderOf(opcode: nat, len: nat): seq<byte>
    requires len < 0x1_0000_0000_0000_0000
  {
    var form := MinimalForm(len);
    [FirstByte(true, opcode % 16), SecondByte(true, LengthCode(form, len))] + ExtendedLength(form, len)
  }

  lemma ClientFrameParts(opcode: nat, payload: seq<byte>, key: Key)
    requires |payload| < 0x1_0000_0000_0000_0000
    ensures HeaderOf(opcode, |payload|) + Body(payload, Some(key)) == ClientFrame(opcode, payload, key)
  {
    var form := MinimalForm(|payload|);
    var two := [FirstByte(true, opcode % 16), SecondByte(true, LengthCode(form, |payload|))];
    Assoc(two, ExtendedLength(form, |payload|), Body(payload, Some(key)));
  }

  method WriteHeader(frame: array<byte>, opcode: nat, len: nat) returns (n: nat)
    requires frame.Length >= WS_HEADER_SIZE && len < 0x1_0000_0000_0000_0000
    modifies frame
    ensures n <= 10 && frame[..n] == HeaderOf(opcode, len)
  {
    frame[0] := 0x80 + opcode % 16;
    if len <= 125 {
      frame[1] := 0x80 + len;
      return 2;
    } else if len <= 65535 {
      frame[1] := 0x80 + 126;
      frame[2] := len / 256 % 256;
      frame[3] := len % 256;
      assert ToBig(len, 2) == ToBig(len / 256, 1) + [len % 256];
      assert ToBig(len / 256, 1) == [] + [len / 256 % 256];
      return 4;
    } else {
      frame[1] := 0x80 + 127;
      for i := 0 to 8
        invariant frame[..2] == [0x80 + opcode % 16, 0x80 + 127]
        invariant frame[2..2 + i] == ToBig(len, 8)[..i]
      {
        BigDigit(len, 8, i);
        frame[2 + i] := ShiftRight8(len, 7 - i) % 256;
        assert frame[2..2 + i + 1] == frame[2..2 + i] + [frame[2 + i]];
      }
      assert frame[..10] == frame[..2] + frame[2..10];
      return 10;
    }
  }

  /** Key and masked payload behind a header of `at` octets. */
  method WriteBody(frame: array<byte>, at: nat, data: array<byte>, len: nat, key: Key) returns (n: nat)
    requires at + 4 + len <= frame.Length && len <= data.Length && frame != data
    modifies frame
    ensures n == at + 4 + len && frame[..n] == old(frame[..at]) + Body(data[..len], Some(key))
  {
    frame[at], frame[at + 1], frame[at + 2], frame[at + 3] := key[0], key[1], key[2], key[3];
    n := at + 4;
    assert frame[..n] == old(frame[..at]) + key;
    MaskInto(frame, n, data, len, key);
    assert frame[..n + len] == old(frame[..at]) + (key + Mask(data[..len], key));
    n := n + len;
  }

  method MaskInto(frame: array<byte>, start: nat, data: array<byte>, len: nat, key: Key)
    requires start + len <= frame.Length && len <= data.Length && frame != data
    modifies frame
    ensures frame[..start + len] == old(frame[..start]) + Mask(data[..len], key)
  {
    for i := 0 to len
      invariant frame[..start + i] == old(frame[..start]) + Mask(data[..i], key)
    {
      frame[start + i] := XorByte(data[i], key[i % 4]);
      assert data[..i + 1][..i] == data[..i];
      assert frame[..start + i + 1] == frame[..start + i] + [frame[start + i]];
    }
  }

  /** `ws_apply_mask`, in place. */
  method ApplyMask(data: array<byte>, len: nat, key: Key)
    requires len <= data.Length
    modifies data
    ensures data[..len] == Mask(old(data[..len]), key) && data[len..] == old(data[len..])
  {
    ghost var plain := data[..];
    for i := 0 to len
      invariant data[..i] == Mask(plain[..i], key)
      invariant data[i..] == plain[i..]
    {
      data[i] := XorByte(data[i], key[i % 4]);
      assert plain[..i + 1][..i] == plain[..i];
      assert data[..i + 1] == data[..i] + [data[i]];
      assert data[i + 1..] == plain[i..][1..];
    }
  }
}
