/**
 * Message fragmentation, RFC 6455 section 5.4: the accumulator of
 * src/network/websocket.c:889-1006 as a step function, against the section's own rules.
 */
module WsMessage {
  import opened Bytes
  import opened WsFrame

  const WS_FRAGMENT_MAX_SIZE := 1024 * 1024

  datatype Message = Message(opcode: nat, data: seq<byte>)

  datatype Assembly = Idle | InProgress(opcode: nat, data: seq<byte>)

  datatype Outcome = Pending(next: Assembly) | Complete(msg: Message) | Failed(next: Assembly)

  /** One frame fed to the accumulator. A completed message always leaves it idle. */
  function Accumulate(a: Assembly, f: Frame): Outcome {
    if f.fin && f.opcode != 0 then
      if a.InProgress? then Failed(Idle) else Complete(Message(f.opcode, f.payload))
    else if !f.fin && (f.opcode == 1 || f.opcode == 2) then
      if a.InProgress? || |f.payload| > WS_FRAGMENT_MAX_SIZE then Failed(Idle)
      else Pending(InProgress(f.opcode, f.payload))
    else if f.opcode == 0 then
      if a.Idle? || |a.data| + |f.payload| > WS_FRAGMENT_MAX_SIZE then Failed(Idle)
      else if f.fin then Complete(Message(a.opcode, a.data + f.payload))
      else Pending(InProgress(a.opcode, a.data + f.payload))
    else Failed(a)
  }

  function Next(o: Outcome): Assembly {
    match o case Pending(n) => n case Complete(_) => Idle case Failed(n) => n
  }

  // ---------------------------------------------------------------- section 5.4, read off the frames received

  predicate IsData(f: Frame) {
    f.opcode <= 2
  }

  ghost predicate AllData(fs: seq<Frame>) {
    forall i :: 0 <= i < |fs| ==> IsData(fs[i])
  }

  /** A fragmented message is under way exactly when the last data frame was not final. */
  predicate Open(history: seq<Frame>) {
    history != [] && !history[|history| - 1].fin
  }

  /** Payloads since the last frame that started a message. */
  function Gathered(history: seq<Frame>): seq<byte> {
    if history == [] then []
    else
      var last := history[|history| - 1];
      if last.opcode != 0 then last.payload else Gathered(history[..|history| - 1]) + last.payload
  }

  function StartOpcode(history: seq<Frame>): nat {
    if history == [] then 0
    else
      var last := history[|history| - 1];
      if last.opcode != 0 then last.opcode else StartOpcode(history[..|history| - 1])
  }

  /** Section 5.4: only a continuation may follow an open message, and only there. */
  predicate Forbidden(history: seq<Frame>, f: Frame) {
    Open(history) <==> f.opcode != 0
  }

  /** The message `f` belongs to is fragmented and passes the limit with it. */
  predicate TooLong(history: seq<Frame>, f: Frame) {
    (Open(history) || !f.fin) && |Gathered(history + [f])| > WS_FRAGMENT_MAX_SIZE
  }

  /** The accumulator after a history of frames, unless one of them failed. */
  function StateAfter(history: seq<Frame>): Option<Assembly> {
    if history == [] then Some(Idle)
    else
      match StateAfter(history[..|history| - 1])
      case None => None
      case Some(a) =>
        var o := Accumulate(a, history[|history| - 1]);
        if o.Failed? then None else Some(Next(o))
  }

  ghost predicate Tracks(a: Assembly, history: seq<Frame>) {
    && (a.InProgress? <==> Open(history))
    && (a.InProgress? ==> a.data == Gathered(history) && a.opcode == StartOpcode(history) && a.opcode != 0)
  }

  /**
   * Over any run of data frames that has not failed yet, the next frame fails exactly when section
   * 5.4 forbids it or its fragmented message passes 1 MiB; a failure leaves the accumulator idle;
   * otherwise a final frame completes the gathered payloads under the opcode that started them.
   */
  lemma {:induction false} AccumulatesExactly(history: seq<Frame>, f: Frame)
    requires AllData(history + [f]) && StateAfter(history).Some?
    ensures var a, now := StateAfter(history).value, history + [f];
            var o := Accumulate(a, f);
            && Tracks(a, history)
            && (o.Failed? <==> Forbidden(history, f) || TooLong(history, f))
            && (o.Failed? ==> o.next == Idle)
            && (o.Complete? <==> !o.Failed? && f.fin)
            && (o.Complete? ==> o.msg == Message(StartOpcode(now), Gathered(now)))
  {
    var now := history + [f];
    assert now[..|history|] == history && now[|history|] == f && IsData(f);
    if history != [] {
      var last := |history| - 1;
      var before, g := history[..last], history[last];
      assert before + [g] == history;
      assert AllData(before + [g]) by {
        assert forall i :: 0 <= i < |history| ==> history[i] == now[i];
      }
      AccumulatesExactly(before, g);
      TracksStep(before, g);
    }
  }

  lemma TracksStep(history: seq<Frame>, f: Frame)
    requires StateAfter(history).Some? && Tracks(StateAfter(history).value, history) && IsData(f)
    requires !Accumulate(StateAfter(history).value, f).Failed?
    ensures Tracks(Next(Accumulate(StateAfter(history).value, f)), history + [f])
  {
    var now := history + [f];
    assert now[..|history|] == history && now[|history|] == f;
  }

  // ---------------------------------------------------------------- splitting a message

  function Payloads(fs: seq<Frame>): seq<byte> {
    if fs == [] then [] else fs[0].payload + Payloads(fs[1..])
  }

  /** A legal fragmentation: opcode on the first frame only, FIN on the last only. */
  ghost predicate Splits(m: Message, fs: seq<Frame>) {
    && fs != [] && (m.opcode == 1 || m.opcode == 2)
    && (forall i :: 0 <= i < |fs| ==> fs[i].opcode == (if i == 0 then m.opcode else 0))
    && (forall i :: 0 <= i < |fs| ==> fs[i].fin == (i == |fs| - 1))
    && Payloads(fs) == m.data
    && (|fs| > 1 ==> |m.data| <= WS_FRAGMENT_MAX_SIZE)
  }

  datatype Run = Run(completed: seq<Message>, end: Option<Assembly>)

  /** The accumulator over a run of frames: messages completed, and the state unless a frame failed. */
  function Feed(a: Assembly, fs: seq<Frame>): Run
    decreases |fs|
  {
    if fs == [] then Run([], Some(a))
    else
      match Accumulate(a, fs[0])
      case Failed(_) => Run([], None)
      case Pending(n) => Feed(n, fs[1..])
      case Complete(m) => var r := Feed(Idle, fs[1..]); Run([m] + r.completed, r.end)
  }

  lemma {:induction false} FeedContinuations(op: nat, data: seq<byte>, fs: seq<Frame>, rest: seq<Frame>)
    requires fs != [] && |data| + |Payloads(fs)| <= WS_FRAGMENT_MAX_SIZE
    requires forall i :: 0 <= i < |fs| ==> fs[i].opcode == 0 && fs[i].fin == (i == |fs| - 1)
    ensures var r := Feed(Idle, rest);
            Feed(InProgress(op, data), fs + rest) == Run([Message(op, data + Payloads(fs))] + r.completed, r.end)
    decreases |fs|
  {
    var f, all := fs[0], fs + rest;
    assert all[0] == f && all[1..] == fs[1..] + rest;
    if |fs| == 1 {
      assert all[1..] == rest;
      assert Payloads(fs) == f.payload + Payloads([]);
      assert data + Payloads(fs) == data + f.payload;
    } else {
      FeedContinuations(op, data + f.payload, fs[1..], rest);
      assert data + (f.payload + Payloads(fs[1..])) == (data + f.payload) + Payloads(fs[1..]);
    }
  }

  /** However a message is split, feeding its frames completes exactly it. */
  lemma FeedMessage(m: Message, fs: seq<Frame>, rest: seq<Frame>)
    requires Splits(m, fs)
    ensures var r := Feed(Idle, rest);
            Feed(Idle, fs + rest) == Run([m] + r.completed, r.end)
  {
    var f, all := fs[0], fs + rest;
    assert all[0] == f && all[1..] == fs[1..] + rest;
    if |fs| == 1 {
      assert all[1..] == rest;
      assert Payloads(fs) == f.payload + Payloads([]) == f.payload;
    } else {
      assert forall i :: 0 <= i < |fs[1..]| ==> fs[1..][i] == fs[i + 1];
      FeedContinuations(f.opcode, f.payload, fs[1..], rest);
    }
  }

  function Concat(splits: seq<seq<Frame>>): seq<Frame> {
    if splits == [] then [] else splits[0] + Concat(splits[1..])
  }

  ghost predicate SplitsAll(ms: seq<Message>, splits: seq<seq<Frame>>) {
    |ms| == |splits| && forall i :: 0 <= i < |ms| ==> Splits(ms[i], splits[i])
  }

  lemma {:induction false} FeedMessages(ms: seq<Message>, splits: seq<seq<Frame>>)
    requires SplitsAll(ms, splits)
    ensures Feed(Idle, Concat(splits)) == Run(ms, Some(Idle))
  {
    if ms != [] {
      FeedMessages(ms[1..], splits[1..]);
      FeedMessage(ms[0], splits[0], Concat(splits[1..]));
      assert ms == [ms[0]] + ms[1..];
    }
  }

  // ---------------------------------------------------------------- nothing else completes

  /** The frames of a message still open, as the accumulator holds it. */
  ghost predicate Opens(a: Assembly, fs: seq<Frame>) {
    if a.Idle? then fs == []
    else
      && fs != [] && (a.opcode == 1 || a.opcode == 2)
      && (forall i :: 0 <= i < |fs| ==> fs[i].opcode == (if i == 0 then a.opcode else 0) && !fs[i].fin)
      && Payloads(fs) == a.data && |a.data| <= WS_FRAGMENT_MAX_SIZE
  }

  lemma {:induction false} PayloadsAppend(fs: seq<Frame>, f: Frame)
    ensures Payloads(fs + [f]) == Payloads(fs) + f.payload
  {
    var all := fs + [f];
    if fs == [] {
      assert all[1..] == [];
    } else {
      assert all[0] == fs[0] && all[1..] == fs[1..] + [f];
      PayloadsAppend(fs[1..], f);
      assert fs[0].payload + (Payloads(fs[1..]) + f.payload) == fs[0].payload + Payloads(fs[1..]) + f.payload;
    }
  }

  /** One more frame either keeps the message open or turns its frames into a legal split. */
  lemma OpensStep(a: Assembly, fs: seq<Frame>, f: Frame)
    requires Opens(a, fs) && IsData(f)
    ensures var o := Accumulate(a, f);
            && (o.Pending? ==> Opens(o.next, fs + [f]))
            && (o.Complete? ==> Splits(o.msg, fs + [f]))
  {
    PayloadsAppend(fs, f);
    if fs == [] { assert Payloads([]) + f.payload == f.payload; }
  }

  /**
   * Whatever the accumulator completes was legally split: a run of data frames without failure is
   * a run of legal splits of the messages completed, followed by the frames of the open one.
   */
  lemma {:induction false} CompletesOnlySplits(a: Assembly, open: seq<Frame>, fs: seq<Frame>)
    returns (splits: seq<seq<Frame>>, tail: seq<Frame>)
    requires Opens(a, open) && AllData(fs) && Feed(a, fs).end.Some?
    ensures SplitsAll(Feed(a, fs).completed, splits)
    ensures open + fs == Concat(splits) + tail && Opens(Feed(a, fs).end.value, tail)
    decreases |fs|
  {
    if fs == [] {
      splits, tail := [], open;
      assert open + fs == open && Concat([]) + open == open;
    } else {
      var f, rest, o := fs[0], fs[1..], Accumulate(a, fs[0]);
      assert IsData(f);
      OpensStep(a, open, f);
      ShiftOne(open, fs);
      if o.Pending? {
        splits, tail := CompletesOnlySplits(o.next, open + [f], rest);
      } else {
        splits, tail := CompletesOnlySplits(Idle, [], rest);
        assert [] + rest == rest;
        PrependSplit(o.msg, open + [f], Feed(Idle, rest).completed, splits, tail);
        splits := [open + [f]] + splits;
      }
    }
  }

  lemma ShiftOne(open: seq<Frame>, fs: seq<Frame>)
    requires fs != []
    ensures (open + [fs[0]]) + fs[1..] == open + fs
  {
  }

  lemma PrependSplit(m: Message, part: seq<Frame>, ms: seq<Message>, splits: seq<seq<Frame>>, tail: seq<Frame>)
    requires Splits(m, part) && SplitsAll(ms, splits)
    ensures SplitsAll([m] + ms, [part] + splits)
    ensures Concat([part] + splits) + tail == part + (Concat(splits) + tail)
  {
    assert ([part] + splits)[1..] == splits;
    assert part + (Concat(splits) + tail) == part + Concat(splits) + tail;
  }
}
