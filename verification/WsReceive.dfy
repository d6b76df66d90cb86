/**
 * The receive loop of src/network/websocket.c:735-879 as a function of the byte stream, and the
 * end-to-end law: any legal framing of any messages comes out as those messages.
 */
module WsReceive {
  import opened Bytes
  import opened WsFrame
  import opened WsMessage

  const WS_MAX_MESSAGE_SIZE := 64 * 1024

  /** Why the loop stopped: the stream ended or broke, the peer closed, or a message broke section 5.4. */
  datatype Stop = ReadFailed | PeerClosed | BadMessage

  datatype Received = Received(completed: seq<Message>, pongs: seq<seq<byte>>, stop: Stop)

  function Receive(s: seq<byte>, a: Assembly): Received
    decreases |s|
  {
    match Read(s, WS_MAX_MESSAGE_SIZE)
    case None => Received([], [], ReadFailed)
    case Some(r) =>
      var f := r.0;
      if f.opcode == 0x08 then Received([], [], PeerClosed)
      else if f.opcode == 0x09 then WithPong(f.payload, Receive(r.1, a))
      else if f.opcode == 0x0A then Receive(r.1, a)
      else
        match Accumulate(a, f)
        case Failed(_) => Received([], [], BadMessage)
        case Pending(n) => Receive(r.1, n)
        case Complete(m) => WithMessage(m, Receive(r.1, Idle))
  }

  function WithPong(payload: seq<byte>, r: Received): Received {
    Received(r.completed, [payload] + r.pongs, r.stop)
  }

  function WithMessage(m: Message, r: Received): Received {
    Received([m] + r.completed, r.pongs, r.stop)
  }

  // ---------------------------------------------------------------- what a peer may send

  /** A frame as sent: with or without a masking key, in any length form that fits. */
  datatype Sent = Sent(frame: Frame, key: Option<Key>, form: LengthForm)

  predicate Sendable(x: Sent) {
    && x.frame.opcode < 16 && Acceptable(x.frame) && x.frame.opcode != 0x08
    && |x.frame.payload| <= WS_MAX_MESSAGE_SIZE && FormFits(x.form, |x.frame.payload|)
  }

  ghost predicate AllSendable(xs: seq<Sent>) {
    forall i :: 0 <= i < |xs| ==> Sendable(xs[i])
  }

  /** The octets of a frame that may be sent. */
  function Octets(x: Sent): seq<byte> {
    if Sendable(x) then Encode(x.frame, x.key, x.form) else []
  }

  function Wire(xs: seq<Sent>): seq<byte> {
    if xs == [] then [] else Octets(xs[0]) + Wire(xs[1..])
  }

  /** The data frames among those sent, in order. */
  function DataFrames(xs: seq<Sent>): seq<Frame> {
    if xs == [] then []
    else (if IsData(xs[0].frame) then [xs[0].frame] else []) + DataFrames(xs[1..])
  }

  function PingPayloads(xs: seq<Sent>): seq<seq<byte>> {
    if xs == [] then []
    else (if xs[0].frame.opcode == 0x09 then [xs[0].frame.payload] else []) + PingPayloads(xs[1..])
  }

  /** One frame off the wire, whatever follows it. */
  lemma ReceiveOne(x: Sent, rest: seq<byte>, a: Assembly)
    requires Sendable(x)
    ensures var s, o := Encode(x.frame, x.key, x.form) + rest, Accumulate(a, x.frame);
            Receive(s, a) ==
            if x.frame.opcode == 0x09 then WithPong(x.frame.payload, Receive(rest, a))
            else if x.frame.opcode == 0x0A then Receive(rest, a)
            else if o.Failed? then Received([], [], BadMessage)
            else if o.Pending? then Receive(rest, o.next)
            else WithMessage(o.msg, Receive(rest, Idle))
  {
    ReadEncoded(x.frame, x.key, x.form, rest, WS_MAX_MESSAGE_SIZE);
    ReceiveUnfold(Encode(x.frame, x.key, x.form) + rest, a, x.frame, rest);
  }

  /** `ms` and `pongs`, and then what the rest holds. */
  function Ahead(ms: seq<Message>, pongs: seq<seq<byte>>, rest: Received): Received {
    Received(ms + rest.completed, pongs + rest.pongs, rest.stop)
  }

  /** The accumulator over the data frames, one sent frame at a time. */
  lemma FeedHead(xs: seq<Sent>, a: Assembly)
    requires xs != [] && Feed(a, DataFrames(xs)).end.Some?
    ensures var x, o := xs[0], Accumulate(a, xs[0].frame);
            var r := Feed(if IsData(x.frame) then Next(o) else a, DataFrames(xs[1..]));
            && (IsData(x.frame) ==> !o.Failed?)
            && Feed(a, DataFrames(xs)) ==
               (if IsData(x.frame) && o.Complete? then Run([o.msg] + r.completed, r.end) else r)
  {
    var x, data := xs[0], DataFrames(xs[1..]);
    if IsData(x.frame) {
      assert DataFrames(xs)[0] == x.frame && DataFrames(xs)[1..] == data;
    } else {
      assert DataFrames(xs) == data;
    }
  }

  lemma AheadOne(x: Sent, o: Outcome, ms: seq<Message>, pongs: seq<seq<byte>>, rest: Received)
    ensures o.Complete? ==> WithMessage(o.msg, Ahead(ms, pongs, rest)) == Ahead([o.msg] + ms, pongs, rest)
    ensures WithPong(x.frame.payload, Ahead(ms, pongs, rest)) == Ahead(ms, [x.frame.payload] + pongs, rest)
  {
    if o.Complete? { assert [o.msg] + (ms + rest.completed) == [o.msg] + ms + rest.completed; }
    assert [x.frame.payload] + (pongs + rest.pongs) == [x.frame.payload] + pongs + rest.pongs;
  }

  /** One sent frame and what is known of the stream behind it. */
  lemma ReceivesStep(xs: seq<Sent>, rest: seq<byte>, a: Assembly, next: Assembly, r: Run, end: Received)
    requires xs != [] && Sendable(xs[0])
    requires IsData(xs[0].frame) ==> !Accumulate(a, xs[0].frame).Failed?
    requires next == if IsData(xs[0].frame) then Next(Accumulate(a, xs[0].frame)) else a
    requires Receive(Wire(xs[1..]) + rest, next) == Ahead(r.completed, PingPayloads(xs[1..]), end)
    ensures var o := Accumulate(a, xs[0].frame);
            var ms := if IsData(xs[0].frame) && o.Complete? then [o.msg] + r.completed else r.completed;
            Receive(Wire(xs) + rest, a) == Ahead(ms, PingPayloads(xs), end)
  {
    var x, o := xs[0], Accumulate(a, xs[0].frame);
    Assoc(Octets(x), Wire(xs[1..]), rest);
    ReceiveOne(x, Wire(xs[1..]) + rest, a);
    AheadOne(x, o, r.completed, PingPayloads(xs[1..]), end);
    assert PingPayloads(xs) == if x.frame.opcode == 0x09 then [x.frame.payload] + PingPayloads(xs[1..])
                               else PingPayloads(xs[1..]);
  }

  /**
   * The loop over sent frames is the accumulator over their data frames, with control frames
   * answered in place and without effect on assembly; it then goes on with whatever follows them.
   */
  lemma {:induction false} ReceivesFrames(xs: seq<Sent>, rest: seq<byte>, a: Assembly)
    requires AllSendable(xs) && Feed(a, DataFrames(xs)).end.Some?
    ensures var r := Feed(a, DataFrames(xs));
            Receive(Wire(xs) + rest, a) == Ahead(r.completed, PingPayloads(xs), Receive(rest, r.end.value))
  {
    if xs == [] {
      assert Wire(xs) + rest == rest;
    } else {
      var x, ys := xs[0], xs[1..];
      assert Sendable(x);
      FeedHead(xs, a);
      var next := if IsData(x.frame) then Next(Accumulate(a, x.frame)) else a;
      var r := Feed(next, DataFrames(ys));
      ReceivesFrames(ys, rest, next);
      ReceivesStep(xs, rest, a, next, r, Receive(rest, r.end.value));
    }
  }

  /**
   * End to end: take any messages, any legal split of each, the frames interleaved with any pings
   * and pongs, masked or not, and anything behind them. The loop completes exactly those messages
   * in order with their opcodes, answers each ping in order with its own payload, and goes on,
   * with no message open, to what is behind.
   */
  lemma EndToEnd(ms: seq<Message>, splits: seq<seq<Frame>>, xs: seq<Sent>, behind: seq<byte>)
    requires SplitsAll(ms, splits) && AllSendable(xs) && DataFrames(xs) == Concat(splits)
    ensures Receive(Wire(xs) + behind, Idle) == Ahead(ms, PingPayloads(xs), Receive(behind, Idle))
  {
    FeedMessages(ms, splits);
    ReceivesFrames(xs, behind, Idle);
  }

  /** A Close frame ends the loop, whatever is open and whatever follows. */
  lemma CloseEnds(close: Frame, key: Option<Key>, form: LengthForm, behind: seq<byte>, a: Assembly)
    requires close.opcode == 0x08 && Acceptable(close) && FormFits(form, |close.payload|)
    ensures Receive(Encode(close, key, form) + behind, a) == Received([], [], PeerClosed)
  {
    ReadEncoded(close, key, form, behind, WS_MAX_MESSAGE_SIZE);
  }

  /** The two ways a stream of whole messages ends: with a Close frame, or with the connection. */
  lemma WholeStreams(ms: seq<Message>, splits: seq<seq<Frame>>, xs: seq<Sent>,
                     close: Frame, key: Option<Key>, form: LengthForm, behind: seq<byte>)
    requires SplitsAll(ms, splits) && AllSendable(xs) && DataFrames(xs) == Concat(splits)
    requires close.opcode == 0x08 && Acceptable(close) && FormFits(form, |close.payload|)
    ensures Receive(Wire(xs) + (Encode(close, key, form) + behind), Idle)
         == Received(ms, PingPayloads(xs), PeerClosed)
    ensures Receive(Wire(xs), Idle) == Received(ms, PingPayloads(xs), ReadFailed)
  {
    EndToEnd(ms, splits, xs, Encode(close, key, form) + behind);
    CloseEnds(close, key, form, behind, Idle);
    EndToEnd(ms, splits, xs, []);
    assert Wire(xs) + [] == Wire(xs);
  }

  /** Why the loop stops in front of `rest`: no readable frame, a Close frame, or one the accumulator rejects. */
  ghost predicate StopsAt(stop: Stop, rest: seq<byte>, a: Assembly) {
    var r := Read(rest, WS_MAX_MESSAGE_SIZE);
    match stop
    case ReadFailed => r.None?
    case PeerClosed => r.Some? && r.value.0.opcode == 0x08
    case BadMessage => r.Some? && IsData(r.value.0) && Accumulate(a, r.value.0).Failed?
  }

  /**
   * Conversely, for every byte stream: what the loop completes and answers is what the accumulator
   * and the pings amount to in a run of readable frames that the stream starts with, and it stops
   * only where the next frame cannot be read, is a Close frame, or is rejected.
   */
  lemma {:induction false} ReceivesOnlyFrames(s: seq<byte>, a: Assembly) returns (xs: seq<Sent>, rest: seq<byte>)
    ensures AllSendable(xs) && s == Wire(xs) + rest
    ensures Feed(a, DataFrames(xs)).end.Some?
    ensures Receive(s, a).completed == Feed(a, DataFrames(xs)).completed
    ensures Receive(s, a).pongs == PingPayloads(xs)
    ensures StopsAt(Receive(s, a).stop, rest, Feed(a, DataFrames(xs)).end.value)
    decreases |s|
  {
    xs, rest := [], s;
    var r := Read(s, WS_MAX_MESSAGE_SIZE);
    if r.Some? && r.value.0.opcode != 0x08 {
      var f, after := r.value.0, r.value.1;
      var key, form := ReadOnlyEncodings(s, WS_MAX_MESSAGE_SIZE);
      ReceiveUnfold(s, a, f, after);
      var o := Accumulate(a, f);
      if !IsData(f) || !o.Failed? {
        var ys;
        ys, rest := ReceivesOnlyFrames(after, if IsData(f) then Next(o) else a);
        var x := Sent(f, key, form);
        PrependFrame(x, ys, rest, a);
        xs := [x] + ys;
      }
    }
  }

  lemma PrependFrame(x: Sent, ys: seq<Sent>, rest: seq<byte>, a: Assembly)
    requires Sendable(x) && AllSendable(ys) && (IsData(x.frame) ==> !Accumulate(a, x.frame).Failed?)
    ensures AllSendable([x] + ys)
    ensures Wire([x] + ys) + rest == Octets(x) + (Wire(ys) + rest)
    ensures DataFrames([x] + ys) == (if IsData(x.frame) then [x.frame] else []) + DataFrames(ys)
    ensures PingPayloads([x] + ys) == (if x.frame.opcode == 0x09 then [x.frame.payload] else []) + PingPayloads(ys)
    ensures var o := Accumulate(a, x.frame);
            var r := Feed(if IsData(x.frame) then Next(o) else a, DataFrames(ys));
            Feed(a, DataFrames([x] + ys)) ==
            if IsData(x.frame) && o.Complete? then Run([o.msg] + r.completed, r.end) else r
  {
    assert ([x] + ys)[1..] == ys;
    Assoc(Octets(x), Wire(ys), rest);
    var data := DataFrames([x] + ys);
    if IsData(x.frame) {
      assert data[0] == x.frame && data[1..] == DataFrames(ys);
    } else {
      assert data == DataFrames(ys);
    }
  }

  // ---------------------------------------------------------------- the answers, read back by the peer

  /** Every frame of a stream that consists of whole frames. */
  function ReadAll(s: seq<byte>, cap: nat): Option<seq<Frame>>
    decreases |s|
  {
    if s == [] then Some([])
    else
      match Read(s, cap)
      case None => None
      case Some(r) =>
        match ReadAll(r.1, cap)
        case None => None
        case Some(fs) => Some([r.0] + fs)
  }

  function FramesOf(xs: seq<Sent>): seq<Frame> {
    if xs == [] then [] else [xs[0].frame] + FramesOf(xs[1..])
  }

  /** A concatenation of written frames splits into those frames, in order, and nothing else. */
  lemma {:induction false} WireSplits(xs: seq<Sent>)
    requires AllSendable(xs)
    ensures ReadAll(Wire(xs), WS_MAX_MESSAGE_SIZE) == Some(FramesOf(xs))
  {
    if xs != [] {
      var x := xs[0];
      assert Sendable(x);
      ReadEncoded(x.frame, x.key, x.form, Wire(xs[1..]), WS_MAX_MESSAGE_SIZE);
      WireSplits(xs[1..]);
    }
  }

  lemma {:induction false} WireConcat(xs: seq<Sent>, ys: seq<Sent>)
    ensures Wire(xs + ys) == Wire(xs) + Wire(ys)
  {
    if xs == [] {
      assert xs + ys == ys;
    } else {
      assert (xs + ys)[0] == xs[0] && (xs + ys)[1..] == xs[1..] + ys;
      WireConcat(xs[1..], ys);
      Assoc(Octets(xs[0]), Wire(xs[1..]), Wire(ys));
    }
  }

  lemma {:induction false} PayloadsConcat(xs: seq<Sent>, ys: seq<Sent>)
    ensures PayloadsOf(xs + ys) == PayloadsOf(xs) + PayloadsOf(ys)
  {
    if xs == [] {
      assert xs + ys == ys;
    } else {
      assert (xs + ys)[0] == xs[0] && (xs + ys)[1..] == xs[1..] + ys;
      PayloadsConcat(xs[1..], ys);
    }
  }

  function PayloadsOf(xs: seq<Sent>): seq<seq<byte>> {
    if xs == [] then [] else [xs[0].frame.payload] + PayloadsOf(xs[1..])
  }

  /** Frames the client may write: final, masked pongs. */
  predicate IsPong(x: Sent) {
    Sendable(x) && x.frame.fin && x.frame.opcode == 0x0A && x.key.Some? && x.form == Short
  }

  ghost predicate AllPongs(xs: seq<Sent>) {
    forall i :: 0 <= i < |xs| ==> IsPong(xs[i])
  }

  lemma PongsAreSendable(xs: seq<Sent>)
    requires AllPongs(xs)
    ensures AllSendable(xs)
  {
  }

  /** One pong per payload, in order. */
  ghost predicate Answers(replies: seq<Sent>, pongs: seq<seq<byte>>) {
    AllPongs(replies) && PayloadsOf(replies) == pongs
  }

  function PongFrames(payloads: seq<seq<byte>>): seq<Frame> {
    if payloads == [] then [] else [Frame(true, 0x0A, payloads[0])] + PongFrames(payloads[1..])
  }

  /** The peer that parses what it was sent finds one final pong per ping, equal in payload and order. */
  lemma {:induction false} PeerReadsAnswers(replies: seq<Sent>, pongs: seq<seq<byte>>)
    requires Answers(replies, pongs)
    ensures ReadAll(Wire(replies), WS_MAX_MESSAGE_SIZE) == Some(PongFrames(pongs))
  {
    PongsAreSendable(replies);
    WireSplits(replies);
    FramesOfPongs(replies);
  }

  lemma {:induction false} FramesOfPongs(replies: seq<Sent>)
    requires AllPongs(replies)
    ensures FramesOf(replies) == PongFrames(PayloadsOf(replies))
  {
    if replies != [] {
      assert IsPong(replies[0]);
      FramesOfPongs(replies[1..]);
      assert PayloadsOf(replies)[1..] == PayloadsOf(replies[1..]);
    }
  }

  // ---------------------------------------------------------------- progress through a stream

  /** `whole` is what came so far, followed by `rest`. */
  ghost predicate Follows(whole: Received, messages: seq<Message>, replies: seq<Sent>, rest: Received) {
    && AllPongs(replies)
    && whole == Received(messages + rest.completed, PayloadsOf(replies) + rest.pongs, rest.stop)
  }

  lemma FollowsOn(whole: Received, ms: seq<Message>, rs: seq<Sent>, mid: Received,
                  ms': seq<Message>, rs': seq<Sent>, rest: Received)
    requires Follows(whole, ms, rs, mid) && Follows(mid, ms', rs', rest)
    ensures Follows(whole, ms + ms', rs + rs', rest)
  {
    PayloadsConcat(rs, rs');
    assert (ms + ms') + rest.completed == ms + (ms' + rest.completed);
    var p, p' := PayloadsOf(rs), PayloadsOf(rs');
    assert (p + p') + rest.pongs == p + (p' + rest.pongs);
  }

  /** What follows a frame that has been read. */
  lemma ReceiveUnfold(s: seq<byte>, a: Assembly, f: Frame, rest: seq<byte>)
    requires Read(s, WS_MAX_MESSAGE_SIZE) == Some((f, rest))
    ensures var o := Accumulate(a, f);
            Receive(s, a) ==
            if f.opcode == 0x08 then Received([], [], PeerClosed)
            else if f.opcode == 0x09 then WithPong(f.payload, Receive(rest, a))
            else if f.opcode == 0x0A then Receive(rest, a)
            else if o.Failed? then Received([], [], BadMessage)
            else if o.Pending? then Receive(rest, o.next)
            else WithMessage(o.msg, Receive(rest, Idle))
  {
  }

  lemma FollowsToTheEnd(whole: Received, ms: seq<Message>, rs: seq<Sent>, rest: Received)
    requires Follows(whole, ms, rs, rest) && rest.completed == [] && rest.pongs == []
    ensures ms == whole.completed && Answers(rs, whole.pongs)
  {
  }

  lemma FollowsNothing(r: Received)
    ensures Follows(r, [], [], r)
  {
    assert [] + r.completed == r.completed && [] + r.pongs == r.pongs;
  }

  lemma WireOfOne(x: Sent)
    ensures Wire([x]) == Octets(x) && PayloadsOf([x]) == [x.frame.payload]
  {
    assert Wire([x]) == Octets(x) + Wire([]);
    assert PayloadsOf([x]) == [x.frame.payload] + PayloadsOf([]);
  }

  /** Only pings of at most 125 octets are ever answered. */
  lemma PingIsShort(s: seq<byte>)
    requires Read(s, WS_MAX_MESSAGE_SIZE).Some? && Read(s, WS_MAX_MESSAGE_SIZE).value.0.opcode == 0x09
    ensures |Read(s, WS_MAX_MESSAGE_SIZE).value.0.payload| <= 125
  {
    var key, form := ReadOnlyEncodings(s, WS_MAX_MESSAGE_SIZE);
  }
}
