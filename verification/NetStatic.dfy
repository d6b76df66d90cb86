/** The traffic sample store of src/monitoring/netstatic.c, one interface at a time. */
module NetStatic {
  import opened Bytes

  const NETSTATIC_MAX_SAMPLES := 200000
  const INITIAL_CAPACITY := 1024
  /** The default of 31 preserved days, in seconds. */
  const PRESERVE_WINDOW := 31 * 86400
  const UINT64_MAX := 0xFFFF_FFFF_FFFF_FFFF
  const UINT64_MODULUS := 0x1_0000_0000_0000_0000

  datatype Sample = Sample(timestamp: nat, tx: nat, rx: nat)

  // ---------------------------------------------------------------- steps as functions

  /** The samples of an interface, the size of their buffer, and the counters last read. */
  datatype Window = Window(samples: seq<Sample>, capacity: nat, lastTx: nat, lastRx: nat)

  /** What a counter moved by; nothing on a first reading, from zero, or across a reset. */
  function Delta(last: nat, now: nat): nat {
    if last > 0 && now >= last then now - last else 0
  }

  function Collected(w: Window, tx: nat, rx: nat, time: nat): Window {
    var s := Sample(time, Delta(w.lastTx, tx), Delta(w.lastRx, rx));
    if |w.samples| < w.capacity then Window(w.samples + [s], w.capacity, tx, rx)
    else if w.capacity >= NETSTATIC_MAX_SAMPLES then
      Window((if w.samples == [] then [] else w.samples[1..]) + [s], w.capacity, tx, rx)
    else
      Window(w.samples + [s], Grown(w.capacity), tx, rx)
  }

  function Grown(capacity: nat): nat {
    if capacity * 2 > NETSTATIC_MAX_SAMPLES then NETSTATIC_MAX_SAMPLES else capacity * 2
  }

  /** The age limit, computed in unsigned 64-bit arithmetic: it wraps before the window has passed. */
  function Cutoff(now: nat): nat {
    (now - PRESERVE_WINDOW) % UINT64_MODULUS
  }

  /** How many samples at the front are older than the limit; the scan stops at the first that is not. */
  function Expired(samples: seq<Sample>, cutoff: nat): (n: nat)
    ensures n <= |samples|
    ensures forall i :: 0 <= i < n ==> samples[i].timestamp < cutoff
    ensures n < |samples| ==> samples[n].timestamp >= cutoff
  {
    if samples == [] || samples[0].timestamp >= cutoff then 0 else 1 + Expired(samples[1..], cutoff)
  }

  /** Cleanup of samples that number at most the cap. */
  function CleanedSamples(samples: seq<Sample>, now: nat): seq<Sample> {
    samples[Expired(samples, Cutoff(now))..]
  }

  // ---------------------------------------------------------------- the C structure

  class InterfaceStats {
    var data: array<Sample>
    var dataCount: nat
    var dataCapacity: nat
    var lastTx: nat
    var lastRx: nat

    ghost predicate Valid()
      reads this
    {
      data.Length == dataCapacity && dataCount <= dataCapacity && 0 < dataCapacity <= NETSTATIC_MAX_SAMPLES
    }

    ghost function Contents(): Window
      requires Valid()
      reads this, data
    {
      Window(data[..dataCount], dataCapacity, lastTx, lastRx)
    }

    /** A freshly added interface. */
    constructor ()
      ensures Valid() && fresh(data) && Contents() == Window([], INITIAL_CAPACITY, 0, 0)
    {
      data := new Sample[INITIAL_CAPACITY](_ => Sample(0, 0, 0));
      dataCount, dataCapacity, lastTx, lastRx := 0, INITIAL_CAPACITY, 0, 0;
    }

    /** The per-interface step of `netstatic_collect`. */
    method Collect(tx: nat, rx: nat, time: nat)
      requires Valid()
      modifies this, data
      ensures Valid() && (data == old(data) || fresh(data))
      ensures Contents() == Collected(old(Contents()), tx, rx, time)
    {
      var txDelta: nat, rxDelta: nat := 0, 0;
      if lastTx > 0 && tx >= lastTx { txDelta := tx - lastTx; }
      if lastRx > 0 && rx >= lastRx { rxDelta := rx - lastRx; }
      lastTx, lastRx := tx, rx;
      if dataCount >= dataCapacity {
        if dataCapacity >= NETSTATIC_MAX_SAMPLES {
          DropFront(1);
        } else {
          var capacity := dataCapacity * 2;
          if capacity > NETSTATIC_MAX_SAMPLES { capacity := NETSTATIC_MAX_SAMPLES; }
          Grow(capacity);
        }
      }
      Append(Sample(time, txDelta, rxDelta));
    }

    method Append(s: Sample)
      requires Valid() && dataCount < dataCapacity
      modifies this`dataCount, data
      ensures Valid() && data[..dataCount] == old(data[..dataCount]) + [s]
    {
      data[dataCount] := s;
      dataCount := dataCount + 1;
    }

    /** `memmove` over the first `n` samples. */
    method DropFront(n: nat)
      requires Valid() && n <= dataCount
      modifies this`dataCount, data
      ensures Valid() && data[..dataCount] == old(data[..dataCount])[n..]
    {
      forall i | 0 <= i < dataCount - n { data[i] := data[i + n]; }
      dataCount := dataCount - n;
    }

    method Grow(capacity: nat)
      requires Valid() && dataCapacity <= capacity <= NETSTATIC_MAX_SAMPLES
      modifies this`data, this`dataCapacity
      ensures Valid() && fresh(data) && dataCapacity == capacity && data[..dataCount] == old(data[..dataCount])
    {
      var bigger := new Sample[capacity](_ => Sample(0, 0, 0));
      forall i | 0 <= i < dataCount { bigger[i] := data[i]; }
      assert bigger[..dataCount] == data[..dataCount];
      data, dataCapacity := bigger, capacity;
    }

    /** The per-interface step of `netstatic_cleanup_old_data`. */
    method Cleanup(now: nat)
      requires Valid()
      modifies this`dataCount, data
      ensures Valid()
      ensures Contents() == old(Contents()).(samples := CleanedSamples(old(Contents()).samples, now))
    {
      var cutoff := Cutoff(now);
      ghost var samples := data[..dataCount];
      var firstValid := 0;
      assert samples[0..] == samples;
      while firstValid < dataCount && data[firstValid].timestamp < cutoff
        invariant firstValid <= dataCount && samples == data[..dataCount]
        invariant Expired(samples, cutoff) == firstValid + Expired(samples[firstValid..], cutoff)
      {
        assert samples[firstValid..][1..] == samples[firstValid + 1..];
        firstValid := firstValid + 1;
      }
      if firstValid > 0 { DropFront(firstValid); }
      // The source's second, count-based trim cannot apply: the capacity never passes the cap.
      if dataCount > NETSTATIC_MAX_SAMPLES { assert false; }
    }

    /** `netstatic_get_monthly_traffic` for this interface: totals that stick at the largest value. */
    method MonthlyTraffic(month: nat -> int, now: nat) returns (tx: nat, rx: nat)
      requires Valid()
      ensures tx == Saturated(MonthTotal(Contents().samples, month, month(now), Tx))
      ensures rx == Saturated(MonthTotal(Contents().samples, month, month(now), Rx))
    {
      tx, rx := 0, 0;
      var current := month(now);
      for j := 0 to dataCount
        invariant tx == Saturated(MonthTotal(data[..j], month, current, Tx))
        invariant rx == Saturated(MonthTotal(data[..j], month, current, Rx))
      {
        assert data[..j + 1][..j] == data[..j];
        var s := data[j];
        ghost var before := InMonth(data[..j], month, current);
        SumAppend(before, s, Tx);
        SumAppend(before, s, Rx);
        assert InMonth(data[..j + 1], month, current) == if month(s.timestamp) == current then before + [s] else before;
        if month(s.timestamp) == current {
          tx := if s.tx > UINT64_MAX - tx then UINT64_MAX else tx + s.tx;
          rx := if s.rx > UINT64_MAX - rx then UINT64_MAX else rx + s.rx;
        }
      }
    }
  }

  // ---------------------------------------------------------------- sums

  function Saturated(x: nat): (r: nat)
    ensures r <= UINT64_MAX
  {
    if x > UINT64_MAX then UINT64_MAX else x
  }

  /** Samples of the given month, in order. */
  function InMonth(samples: seq<Sample>, month: nat -> int, m: int): seq<Sample> {
    if samples == [] then []
    else
      var last := samples[|samples| - 1];
      InMonth(samples[..|samples| - 1], month, m) + (if month(last.timestamp) == m then [last] else [])
  }

  /** Sent or received: the source keeps and treats the two alike. */
  datatype Side = Tx | Rx

  function Amount(s: Sample, side: Side): nat {
    match side case Tx => s.tx case Rx => s.rx
  }

  function Sum(samples: seq<Sample>, side: Side): nat {
    if samples == [] then 0 else Sum(samples[..|samples| - 1], side) + Amount(samples[|samples| - 1], side)
  }

  lemma SumAppend(samples: seq<Sample>, s: Sample, side: Side)
    ensures Sum(samples + [s], side) == Sum(samples, side) + Amount(s, side)
  {
    assert (samples + [s])[..|samples|] == samples;
  }

  function MonthTotal(samples: seq<Sample>, month: nat -> int, m: int, side: Side): nat {
    Sum(InMonth(samples, month, m), side)
  }

  lemma {:induction false} InMonthConcat(a: seq<Sample>, b: seq<Sample>, month: nat -> int, m: int)
    ensures InMonth(a + b, month, m) == InMonth(a, month, m) + InMonth(b, month, m)
    decreases |b|
  {
    if b == [] {
      assert a + b == a;
    } else {
      var last := |b| - 1;
      InMonthConcat(a, b[..last], month, m);
      assert (a + b)[..|a + b| - 1] == a + b[..last];
    }
  }

  lemma {:induction false} InMonthSize(samples: seq<Sample>, month: nat -> int, m: int)
    ensures |InMonth(samples, month, m)| <= |samples|
    ensures InMonth(samples, month, m) == [] <==> forall s :: s in samples ==> month(s.timestamp) != m
    ensures (forall s :: s in samples ==> month(s.timestamp) == m) ==> InMonth(samples, month, m) == samples
  {
    if samples != [] {
      var front, last := samples[..|samples| - 1], samples[|samples| - 1];
      assert samples == front + [last];
      InMonthSize(front, month, m);
    }
  }

  // ---------------------------------------------------------------- runs

  datatype Op = CollectOp(tx: nat, rx: nat, time: nat) | CleanupOp(time: nat)

  /** The interface after a run from a fresh one. */
  function After(ops: seq<Op>): Window {
    if ops == [] then Window([], INITIAL_CAPACITY, 0, 0)
    else
      var w := After(ops[..|ops| - 1]);
      match ops[|ops| - 1]
      case CollectOp(tx, rx, time) => Collected(w, tx, rx, time)
      case CleanupOp(time) => w.(samples := CleanedSamples(w.samples, time))
  }

  /** Every sample the run ever appended. */
  function History(ops: seq<Op>): seq<Sample> {
    if ops == [] then []
    else
      var w := After(ops[..|ops| - 1]);
      match ops[|ops| - 1]
      case CollectOp(tx, rx, time) =>
        History(ops[..|ops| - 1]) + [Sample(time, Delta(w.lastTx, tx), Delta(w.lastRx, rx))]
      case CleanupOp(_) => History(ops[..|ops| - 1])
  }

  predicate IsCapacity(c: nat) {
    c in {1024, 2048, 4096, 8192, 16384, 32768, 65536, 131072, 200000}
  }

  ghost predicate Fits(w: Window) {
    |w.samples| <= w.capacity && IsCapacity(w.capacity)
  }

  /** The sample a collect appends. */
  function Taken(w: Window, tx: nat, rx: nat, time: nat): Sample {
    Sample(time, Delta(w.lastTx, tx), Delta(w.lastRx, rx))
  }

  lemma CollectKeeps(w: Window, all: seq<Sample>, tx: nat, rx: nat, time: nat)
    requires Fits(w) && IsSuffix(w.samples, all)
    ensures Fits(Collected(w, tx, rx, time))
    ensures IsSuffix(Collected(w, tx, rx, time).samples, all + [Taken(w, tx, rx, time)])
  {
  }

  lemma {:induction false} StoredIsSuffix(ops: seq<Op>)
    ensures Fits(After(ops)) && IsSuffix(After(ops).samples, History(ops))
  {
    if ops != [] {
      var before, op := ops[..|ops| - 1], ops[|ops| - 1];
      StoredIsSuffix(before);
      if op.CollectOp? {
        CollectKeeps(After(before), History(before), op.tx, op.rx, op.time);
      } else {
        var h, s := History(before), After(before).samples;
        assert s[Expired(s, Cutoff(op.time))..] == h[|h| - |s| + Expired(s, Cutoff(op.time))..];
      }
    }
  }

  /** Samples no longer stored: the part of the history before the stored ones. */
  function Dropped(ops: seq<Op>): (d: seq<Sample>)
    ensures d + After(ops).samples == History(ops)
  {
    StoredIsSuffix(ops);
    History(ops)[..|History(ops)| - |After(ops).samples|]
  }

  // ---------------------------------------------------------------- which samples are gone

  /** The clock never goes back. */
  ghost predicate ClockRuns(ops: seq<Op>, now: nat) {
    && (forall i, j :: 0 <= i < j < |ops| ==> ops[i].time <= ops[j].time)
    && (forall i :: 0 <= i < |ops| ==> ops[i].time <= now)
  }

  ghost predicate InOrder(samples: seq<Sample>) {
    forall i, j :: 0 <= i < j < |samples| ==> samples[i].timestamp <= samples[j].timestamp
  }

  /** Some cleanup of the run came when sample `i` of the history was past its age limit. */
  predicate Expires(ops: seq<Op>, i: nat) {
    ops != [] &&
    (Expires(ops[..|ops| - 1], i) ||
      (ops[|ops| - 1].CleanupOp? && ExpiredAt(History(ops[..|ops| - 1]), i, ops[|ops| - 1].time)))
  }

  predicate ExpiredAt(history: seq<Sample>, i: nat, time: nat) {
    i < |history| && history[i].timestamp < Cutoff(time)
  }

  lemma RunPrefix(ops: seq<Op>, now: nat)
    requires ops != [] && ClockRuns(ops, now)
    ensures ClockRuns(ops[..|ops| - 1], ops[|ops| - 1].time)
  {
  }

  lemma {:induction false} HistoryInOrder(ops: seq<Op>, now: nat)
    requires ClockRuns(ops, now)
    ensures InOrder(History(ops)) && forall i :: 0 <= i < |History(ops)| ==> History(ops)[i].timestamp <= now
  {
    if ops != [] {
      RunPrefix(ops, now);
      HistoryInOrder(ops[..|ops| - 1], ops[|ops| - 1].time);
    }
  }

  lemma {:induction false} ExpiresInHistory(ops: seq<Op>, i: nat)
    ensures Expires(ops, i) ==> i < |History(ops)|
  {
    if ops != [] { ExpiresInHistory(ops[..|ops| - 1], i); }
  }

  /** How many samples of the history are no longer stored. */
  function Gone(ops: seq<Op>): nat {
    |Dropped(ops)|
  }

  /** Cleanup of samples in time order takes exactly those past the limit. */
  lemma ExpiredIff(samples: seq<Sample>, cutoff: nat, i: nat)
    requires InOrder(samples) && i < |samples|
    ensures i < Expired(samples, cutoff) <==> samples[i].timestamp < cutoff
  {
  }

  lemma CollectGone(ops: seq<Op>)
    requires ops != [] && ops[|ops| - 1].CollectOp?
    ensures var before := ops[..|ops| - 1];
            Gone(ops) == Gone(before) + (if |After(before).samples| >= NETSTATIC_MAX_SAMPLES then 1 else 0)
  {
    StoredIsSuffix(ops[..|ops| - 1]);
  }

  lemma ExpiredBehind(d: seq<Sample>, s: seq<Sample>, cutoff: nat, i: nat)
    requires InOrder(d + s) && i < |d + s|
    ensures i < |d| + Expired(s, cutoff) <==> i < |d| || (d + s)[i].timestamp < cutoff
  {
    var h := d + s;
    assert forall k :: 0 <= k < |s| ==> s[k] == h[|d| + k];
    if i >= |d| { ExpiredIff(s, cutoff, i - |d|); }
  }

  lemma CleanupGone(ops: seq<Op>, now: nat, i: nat)
    requires ops != [] && ops[|ops| - 1].CleanupOp? && ClockRuns(ops, now) && i < |History(ops)|
    ensures var before := ops[..|ops| - 1];
            i < Gone(ops) <==> i < Gone(before) || ExpiredAt(History(before), i, ops[|ops| - 1].time)
  {
    var before, time := ops[..|ops| - 1], ops[|ops| - 1].time;
    RunPrefix(ops, now);
    HistoryInOrder(before, time);
    var d, s := Dropped(before), After(before).samples;
    assert History(ops) == History(before) == d + s;
    ExpiredBehind(d, s, Cutoff(time), i);
    assert After(ops).samples == s[Expired(s, Cutoff(time))..];
  }

  /**
   * A sample is no longer stored exactly when a cleanup came while it was past the age limit, or
   * 200000 later ones were taken.
   */
  lemma {:induction false} DroppedIff(ops: seq<Op>, now: nat, i: nat)
    requires ClockRuns(ops, now) && i < |History(ops)|
    ensures i < |Dropped(ops)| <==> Expires(ops, i) || |History(ops)| - i > NETSTATIC_MAX_SAMPLES
  {
    var before, op := ops[..|ops| - 1], ops[|ops| - 1];
    RunPrefix(ops, now);
    StoredIsSuffix(before);
    StoredIsSuffix(ops);
    ExpiresInHistory(before, i);
    if i < |History(before)| { DroppedIff(before, op.time, i); }
    if op.CollectOp? { CollectGone(ops); } else { CleanupGone(ops, now, i); }
  }

  // ---------------------------------------------------------------- the month and the history

  /** The current month is one stretch of time, up to now. */
  ghost predicate OneStretch(month: nat -> int, now: nat) {
    forall t: nat, u: nat :: t <= u <= now && month(t) == month(now) ==> month(u) == month(now)
  }

  ghost predicate MonthExpires(ops: seq<Op>, month: nat -> int, m: int) {
    exists i :: 0 <= i < |History(ops)| && Expires(ops, i) && month(History(ops)[i].timestamp) == m
  }

  ghost predicate NoneInMonth(samples: seq<Sample>, month: nat -> int, m: int) {
    forall i :: 0 <= i < |samples| ==> month(samples[i].timestamp) != m
  }

  lemma SuffixAgreesIff(d: seq<Sample>, s: seq<Sample>, month: nat -> int, m: int)
    ensures InMonth(s, month, m) == InMonth(d + s, month, m) <==> NoneInMonth(d, month, m)
  {
    InMonthConcat(d, s, month, m);
    InMonthSize(d, month, m);
    assert forall i :: 0 <= i < |d| ==> d[i] in d;
  }

  lemma TailInMonth(h: seq<Sample>, month: nat -> int, now: nat, i: nat)
    requires InOrder(h) && OneStretch(month, now) && forall k :: 0 <= k < |h| ==> h[k].timestamp <= now
    requires i < |h| && month(h[i].timestamp) == month(now)
    ensures InMonth(h[i..], month, month(now)) == h[i..]
  {
    forall s | s in h[i..] ensures month(s.timestamp) == month(now) {
      var k :| 0 <= k < |h[i..]| && h[i..][k] == s;
      assert h[i + k] == s;
    }
    InMonthSize(h[i..], month, month(now));
  }

  /** Every sample after one of the current month belongs to it as well. */
  lemma LaterInMonth(h: seq<Sample>, month: nat -> int, now: nat, i: nat)
    requires InOrder(h) && OneStretch(month, now) && forall k :: 0 <= k < |h| ==> h[k].timestamp <= now
    requires i < |h| && month(h[i].timestamp) == month(now)
    ensures |InMonth(h, month, month(now))| >= |h| - i
  {
    TailInMonth(h, month, now, i);
    assert h[..i] + h[i..] == h;
    InMonthConcat(h[..i], h[i..], month, month(now));
  }

  lemma GoneForReason(ops: seq<Op>, month: nat -> int, now: nat, i: nat)
    requires ClockRuns(ops, now) && OneStretch(month, now)
    requires i < |Dropped(ops)| && month(Dropped(ops)[i].timestamp) == month(now)
    ensures MonthExpires(ops, month, month(now)) || |InMonth(History(ops), month, month(now))| > NETSTATIC_MAX_SAMPLES
  {
    assert History(ops)[i] == Dropped(ops)[i];
    DroppedIff(ops, now, i);
    HistoryInOrder(ops, now);
    if !Expires(ops, i) { LaterInMonth(History(ops), month, now, i); }
  }

  lemma ExpiredIsGone(ops: seq<Op>, month: nat -> int, now: nat)
    requires ClockRuns(ops, now) && MonthExpires(ops, month, month(now))
    ensures exists i :: 0 <= i < |Dropped(ops)| && month(Dropped(ops)[i].timestamp) == month(now)
  {
    var i :| 0 <= i < |History(ops)| && Expires(ops, i) && month(History(ops)[i].timestamp) == month(now);
    DroppedIff(ops, now, i);
    assert Dropped(ops)[i] == History(ops)[i];
  }

  /**
   * The current month's stored samples are all that were ever taken in it exactly when those number
   * at most 200000 and no cleanup came while one of them was past the age limit.
   */
  lemma MonthAgreesIff(ops: seq<Op>, month: nat -> int, now: nat)
    requires ClockRuns(ops, now) && OneStretch(month, now)
    ensures InMonth(After(ops).samples, month, month(now)) == InMonth(History(ops), month, month(now))
       <==> |InMonth(History(ops), month, month(now))| <= NETSTATIC_MAX_SAMPLES && !MonthExpires(ops, month, month(now))
  {
    var d, s := Dropped(ops), After(ops).samples;
    SuffixAgreesIff(d, s, month, month(now));
    if i :| 0 <= i < |d| && month(d[i].timestamp) == month(now) {
      GoneForReason(ops, month, now, i);
    } else {
      if MonthExpires(ops, month, month(now)) { ExpiredIsGone(ops, month, now); }
      StoredIsSuffix(ops);
      InMonthSize(s, month, month(now));
    }
  }

  /** The current month started no longer ago than the preserve window. */
  ghost predicate MonthFits(month: nat -> int, now: nat) {
    forall t: nat :: t <= now && month(t) == month(now) ==> now - t <= PRESERVE_WINDOW
  }

  /** No cleanup runs before the window has passed since the epoch. */
  ghost predicate ClockIsSet(ops: seq<Op>) {
    forall i :: 0 <= i < |ops| && ops[i].CleanupOp? ==> PRESERVE_WINDOW <= ops[i].time < UINT64_MODULUS
  }

  lemma {:induction false} ExpiresIsOld(ops: seq<Op>, now: nat, i: nat)
    requires ClockRuns(ops, now) && ClockIsSet(ops) && Expires(ops, i)
    ensures i < |History(ops)| && History(ops)[i].timestamp + PRESERVE_WINDOW < now
  {
    var before, op := ops[..|ops| - 1], ops[|ops| - 1];
    RunPrefix(ops, now);
    if Expires(before, i) {
      ExpiresIsOld(before, op.time, i);
    } else {
      assert Cutoff(op.time) == op.time - PRESERVE_WINDOW;
    }
  }

  // ---------------------------------------------------------------- the monthly totals

  lemma {:induction false} MonthZeroIff(samples: seq<Sample>, month: nat -> int, m: int, side: Side)
    ensures MonthTotal(samples, month, m, side) == 0 <==>
            forall i :: 0 <= i < |samples| && month(samples[i].timestamp) == m ==> Amount(samples[i], side) == 0
  {
    if samples != [] {
      var front, last := samples[..|samples| - 1], samples[|samples| - 1];
      MonthZeroIff(front, month, m, side);
      SumAppend(InMonth(front, month, m), last, side);
      assert forall i :: 0 <= i < |front| ==> front[i] == samples[i];
      if month(last.timestamp) != m { assert InMonth(samples, month, m) == InMonth(front, month, m); }
    }
  }

  lemma {:induction false} SumConcat(a: seq<Sample>, b: seq<Sample>, side: Side)
    ensures Sum(a + b, side) == Sum(a, side) + Sum(b, side)
    decreases |b|
  {
    if b == [] {
      assert a + b == a;
    } else {
      SumConcat(a, b[..|b| - 1], side);
      assert (a + b)[..|a + b| - 1] == a + b[..|b| - 1];
    }
  }

  lemma MonthTotalConcat(a: seq<Sample>, b: seq<Sample>, month: nat -> int, m: int, side: Side)
    ensures MonthTotal(a + b, month, m, side) == MonthTotal(a, month, m, side) + MonthTotal(b, month, m, side)
  {
    InMonthConcat(a, b, month, m);
    SumConcat(InMonth(a, month, m), InMonth(b, month, m), side);
  }

  /** Sample `i` came before 200000 others, or a cleanup found it past the age limit. */
  predicate IsLost(ops: seq<Op>, i: nat) {
    Expires(ops, i) || |History(ops)| - i > NETSTATIC_MAX_SAMPLES
  }

  /** No lost sample of the month carried traffic. */
  ghost predicate NothingLost(ops: seq<Op>, month: nat -> int, m: int, side: Side) {
    forall i :: 0 <= i < |History(ops)| && month(History(ops)[i].timestamp) == m && IsLost(ops, i) ==>
      Amount(History(ops)[i], side) == 0
  }

  lemma NothingLostIff(ops: seq<Op>, now: nat, month: nat -> int, m: int, side: Side)
    requires ClockRuns(ops, now)
    ensures NothingLost(ops, month, m, side) <==> MonthTotal(Dropped(ops), month, m, side) == 0
  {
    var d, h := Dropped(ops), History(ops);
    MonthZeroIff(d, month, m, side);
    assert forall i :: 0 <= i < |d| ==> d[i] == h[i];
    forall i | 0 <= i < |h| ensures i < |d| <==> IsLost(ops, i) {
      DroppedIff(ops, now, i);
    }
  }

  /**
   * The monthly total over the stored samples is that over all samples ever taken exactly when no
   * lost one carried traffic, for every run and every calendar; the total as it is reported, stuck
   * at the largest value, agrees also when what is stored already reaches that.
   */
  lemma TotalAgreesIff(ops: seq<Op>, now: nat, month: nat -> int, m: int, side: Side)
    requires ClockRuns(ops, now)
    ensures var kept, all := MonthTotal(After(ops).samples, month, m, side), MonthTotal(History(ops), month, m, side);
            && (kept == all <==> NothingLost(ops, month, m, side))
            && (Saturated(kept) == Saturated(all) <==> NothingLost(ops, month, m, side) || kept >= UINT64_MAX)
  {
    MonthTotalConcat(Dropped(ops), After(ops).samples, month, m, side);
    NothingLostIff(ops, now, month, m, side);
  }

  /** No sample of the month that 200000 later ones pushed out carried traffic. */
  ghost predicate PushedOutIdle(ops: seq<Op>, month: nat -> int, m: int, side: Side) {
    forall i :: 0 <= i < |History(ops)| - NETSTATIC_MAX_SAMPLES && month(History(ops)[i].timestamp) == m ==>
      Amount(History(ops)[i], side) == 0
  }

  lemma NoneExpiresInMonth(ops: seq<Op>, month: nat -> int, now: nat)
    requires ClockRuns(ops, now) && ClockIsSet(ops) && MonthFits(month, now)
    ensures forall i :: 0 <= i < |History(ops)| && month(History(ops)[i].timestamp) == month(now) ==> !Expires(ops, i)
  {
    forall i | 0 <= i < |History(ops)| && month(History(ops)[i].timestamp) == month(now) ensures !Expires(ops, i) {
      if Expires(ops, i) {
        ExpiresIsOld(ops, now, i);
        assert false;
      }
    }
  }

  lemma MonthTotalAgreesIff(ops: seq<Op>, month: nat -> int, now: nat, side: Side)
    requires ClockRuns(ops, now) && ClockIsSet(ops) && MonthFits(month, now)
    ensures MonthTotal(After(ops).samples, month, month(now), side) == MonthTotal(History(ops), month, month(now), side)
       <==> PushedOutIdle(ops, month, month(now), side)
  {
    NoneExpiresInMonth(ops, month, now);
    TotalAgreesIff(ops, now, month, month(now), side);
    assert NothingLost(ops, month, month(now), side) <==> PushedOutIdle(ops, month, month(now), side);
  }

  /**
   * After any interleaving of collects and cleanups, in a month of at most 31 days, the monthly
   * query sees every sample of the month exactly when at most 200000 were taken in it, and all of
   * the traffic exactly when those that later ones pushed out carried none.
   */
  lemma MonthAgreesWithHistory(ops: seq<Op>, month: nat -> int, now: nat, side: Side)
    requires ClockRuns(ops, now) && ClockIsSet(ops) && OneStretch(month, now) && MonthFits(month, now)
    ensures InMonth(After(ops).samples, month, month(now)) == InMonth(History(ops), month, month(now))
       <==> |InMonth(History(ops), month, month(now))| <= NETSTATIC_MAX_SAMPLES
    ensures MonthTotal(After(ops).samples, month, month(now), side) == MonthTotal(History(ops), month, month(now), side)
       <==> PushedOutIdle(ops, month, month(now), side)
    ensures |InMonth(History(ops), month, month(now))| <= NETSTATIC_MAX_SAMPLES ==>
              PushedOutIdle(ops, month, month(now), side)
  {
    MonthAgreesIff(ops, month, now);
    NoneExpiresInMonth(ops, month, now);
    MonthTotalAgreesIff(ops, month, now, side);
  }

  // ---------------------------------------------------------------- a month too long for the store

  /** The worker's pause between two readings. */
  const DETECT_INTERVAL := 2

  function ReadingTime(n: nat): nat {
    PRESERVE_WINDOW + DETECT_INTERVAL * n
  }

  /** `n` readings, two seconds apart, of a counter that gains one octet each time. */
  function Steady(n: nat): seq<Op> {
    if n == 0 then [] else Steady(n - 1) + [CollectOp(n, n, ReadingTime(n))]
  }

  ghost predicate SmallDeltas(samples: seq<Sample>) {
    forall i :: 0 <= i < |samples| ==> samples[i].tx <= 1
  }

  lemma {:induction false} SmallSum(samples: seq<Sample>)
    requires SmallDeltas(samples)
    ensures Sum(samples, Tx) <= |samples|
  {
    if samples != [] { SmallSum(samples[..|samples| - 1]); }
  }

  lemma {:induction false} SteadyHistory(n: nat)
    ensures |History(Steady(n))| == n && SmallDeltas(History(Steady(n)))
    ensures After(Steady(n)).lastTx == n && (n > 0 ==> Sum(History(Steady(n)), Tx) == n - 1)
  {
    if n > 0 {
      SteadyHistory(n - 1);
      var taken := Taken(After(Steady(n - 1)), n, n, ReadingTime(n));
      SteadyStep(n);
      SumAppend(History(Steady(n - 1)), taken, Tx);
    }
  }

  lemma SteadyStep(n: nat)
    requires n > 0
    ensures var w, h := After(Steady(n - 1)), History(Steady(n - 1));
            && History(Steady(n)) == h + [Taken(w, n, n, ReadingTime(n))]
            && After(Steady(n)) == Collected(w, n, n, ReadingTime(n))
  {
    var ops := Steady(n);
    assert ops[..|ops| - 1] == Steady(n - 1);
  }

  lemma {:induction false} SteadyTimes(n: nat)
    ensures |Steady(n)| == n && forall i :: 0 <= i < n ==> Steady(n)[i].time == ReadingTime(i + 1)
  {
    if n > 0 { SteadyTimes(n - 1); }
  }

  lemma {:induction false} SteadyStamps(n: nat)
    ensures |History(Steady(n))| == n
    ensures forall i :: 0 <= i < n ==> History(Steady(n))[i].timestamp == ReadingTime(i + 1)
  {
    if n > 0 {
      SteadyStamps(n - 1);
      SteadyStep(n);
    }
  }

  /** A calendar of months of 31 days. */
  function LongMonths(time: nat): int {
    time / PRESERVE_WINDOW
  }

  lemma SecondMonth(n: nat)
    requires DETECT_INTERVAL * n < PRESERVE_WINDOW
    ensures LongMonths(ReadingTime(n)) == 1
  {
  }

  lemma InSecondMonth(n: nat, i: nat)
    requires DETECT_INTERVAL * n < PRESERVE_WINDOW && i < |History(Steady(n))|
    ensures LongMonths(History(Steady(n))[i].timestamp) == 1
  {
    SteadyStamps(n);
    SecondMonth(i + 1);
  }

  lemma WholeMonth(n: nat, samples: seq<Sample>)
    requires DETECT_INTERVAL * n < PRESERVE_WINDOW && IsSuffix(samples, History(Steady(n)))
    ensures MonthTotal(samples, LongMonths, 1, Tx) == Sum(samples, Tx)
  {
    forall s | s in samples ensures LongMonths(s.timestamp) == 1 {
      var i: nat :| i < |samples| && samples[i] == s;
      InSecondMonth(n, |History(Steady(n))| - |samples| + i);
    }
    InMonthSize(samples, LongMonths, 1);
  }

  lemma SuffixSum(s: seq<Sample>, h: seq<Sample>)
    requires IsSuffix(s, h) && SmallDeltas(h)
    ensures Sum(s, Tx) <= |s|
  {
    assert forall i :: 0 <= i < |s| ==> s[i] == h[|h| - |s| + i];
    SmallSum(s);
  }

  /** A steady run of more than 200001 readings, which ends within its month, loses traffic from the monthly total. */
  lemma FullStoreLosesTraffic(n: nat)
    requires NETSTATIC_MAX_SAMPLES + 1 < n && DETECT_INTERVAL * n < PRESERVE_WINDOW
    ensures ClockRuns(Steady(n), ReadingTime(n)) && LongMonths(ReadingTime(n)) == 1
    ensures MonthTotal(History(Steady(n)), LongMonths, 1, Tx) == n - 1
    ensures MonthTotal(After(Steady(n)).samples, LongMonths, 1, Tx) < n - 1
  {
    SteadyTimes(n);
    SecondMonth(n);
    SteadyHistory(n);
    StoredIsSuffix(Steady(n));
    SuffixSum(After(Steady(n)).samples, History(Steady(n)));
    WholeMonth(n, History(Steady(n)));
    WholeMonth(n, After(Steady(n)).samples);
  }

  // ---------------------------------------------------------------- one cleanup

  lemma CleanupSparesMonth(samples: seq<Sample>, month: nat -> int, now: nat)
    requires MonthFits(month, now) && PRESERVE_WINDOW <= now < UINT64_MODULUS
    ensures InMonth(CleanedSamples(samples, now), month, month(now)) == InMonth(samples, month, month(now))
  {
    var n := Expired(samples, Cutoff(now));
    assert Cutoff(now) == now - PRESERVE_WINDOW;
    InMonthConcat(samples[..n], samples[n..], month, month(now));
    InMonthSize(samples[..n], month, month(now));
    assert samples == samples[..n] + samples[n..];
  }

  lemma EarlyCleanupDropsAll(samples: seq<Sample>, now: nat)
    requires now < PRESERVE_WINDOW && forall i :: 0 <= i < |samples| ==> samples[i].timestamp <= now
    ensures CleanedSamples(samples, now) == []
  {
    assert Cutoff(now) == now - PRESERVE_WINDOW + UINT64_MODULUS;
    AllExpired(samples, Cutoff(now));
  }

  /** No sample of the month is past the age limit. */
  ghost predicate NoneExpired(samples: seq<Sample>, cutoff: nat, month: nat -> int, m: int) {
    forall i :: 0 <= i < |samples| && month(samples[i].timestamp) == m ==> samples[i].timestamp >= cutoff
  }

  /**
   * For every calendar and every clock: cleanup spares the current month exactly when none of its
   * samples is past the age limit.
   */
  lemma CleanupSparesIff(samples: seq<Sample>, month: nat -> int, now: nat)
    requires InOrder(samples)
    ensures InMonth(CleanedSamples(samples, now), month, month(now)) == InMonth(samples, month, month(now))
       <==> NoneExpired(samples, Cutoff(now), month, month(now))
  {
    var n := Expired(samples, Cutoff(now));
    SuffixAgreesIff(samples[..n], samples[n..], month, month(now));
    assert samples == samples[..n] + samples[n..];
    NoneExpiredIff(samples, Cutoff(now), month, month(now));
  }

  lemma NoneExpiredIff(samples: seq<Sample>, cutoff: nat, month: nat -> int, m: int)
    requires InOrder(samples)
    ensures NoneInMonth(samples[..Expired(samples, cutoff)], month, m) <==> NoneExpired(samples, cutoff, month, m)
  {
    var front := samples[..Expired(samples, cutoff)];
    if NoneInMonth(front, month, m) {
      forall i | 0 <= i < |samples| && month(samples[i].timestamp) == m ensures samples[i].timestamp >= cutoff {
        ExpiredIff(samples, cutoff, i);
      }
    }
    if NoneExpired(samples, cutoff, month, m) {
      forall i | 0 <= i < |front| ensures month(front[i].timestamp) != m {
        assert front[i] == samples[i] && samples[i].timestamp < cutoff;
      }
    }
  }

  /** A calendar whose first month has 31 days and an hour, as where clocks are set back in October. */
  function HourLonger(time: nat): int {
    if time < PRESERVE_WINDOW + 3600 then 0 else 1
  }

  /** In the last hour of such a month cleanup drops what was taken in its first, though the clock is set. */
  lemma LongMonthLosesSample(tx: nat, rx: nat)
    ensures var now, samples := PRESERVE_WINDOW + 1800, [Sample(10, tx, rx)];
            && HourLonger(now) == HourLonger(10)
            && InMonth(samples, HourLonger, HourLonger(now)) == samples && CleanedSamples(samples, now) == []
  {
    var samples := [Sample(10, tx, rx)];
    InMonthSize(samples, HourLonger, 0);
    AllExpired(samples, Cutoff(PRESERVE_WINDOW + 1800));
  }

  /**
   * In a month within the window, cleanup spares it exactly when the window has passed since the
   * epoch, or there was nothing to spare: before that the limit wraps around and everything goes.
   */
  lemma CleanupSparesMonthIff(samples: seq<Sample>, month: nat -> int, now: nat)
    requires MonthFits(month, now) && now < UINT64_MODULUS
    requires forall i :: 0 <= i < |samples| ==> samples[i].timestamp <= now
    ensures InMonth(CleanedSamples(samples, now), month, month(now)) == InMonth(samples, month, month(now))
       <==> now >= PRESERVE_WINDOW || InMonth(samples, month, month(now)) == []
  {
    if now >= PRESERVE_WINDOW {
      CleanupSparesMonth(samples, month, now);
    } else {
      EarlyCleanupDropsAll(samples, now);
    }
  }

  lemma {:induction false} AllExpired(samples: seq<Sample>, cutoff: nat)
    requires forall i :: 0 <= i < |samples| ==> samples[i].timestamp < cutoff
    ensures Expired(samples, cutoff) == |samples|
  {
    if samples != [] { AllExpired(samples[1..], cutoff); }
  }

  // ---------------------------------------------------------------- conservation of traffic

  /** The deltas recorded while a counter moves through `readings`, having last shown `last`. */
  function Recorded(last: nat, readings: seq<nat>): nat
    decreases |readings|
  {
    if readings == [] then 0 else Delta(last, readings[0]) + Recorded(readings[0], readings[1..])
  }

  ghost predicate Rising(last: nat, readings: seq<nat>) {
    (readings != [] ==> last <= readings[0]) && forall i, j :: 0 <= i < j < |readings| ==> readings[i] <= readings[j]
  }

  function Final(last: nat, readings: seq<nat>): nat {
    if readings == [] then last else readings[|readings| - 1]
  }

  /**
   * Over a stretch without a reset nothing is lost or invented, exactly when the counter had left
   * zero before it (or never leaves zero): what a counter gains on leaving zero is not recorded.
   */
  lemma {:induction false} ConservedIff(last: nat, readings: seq<nat>)
    requires Rising(last, readings)
    ensures Recorded(last, readings) <= Final(last, readings) - last
    ensures Recorded(last, readings) == Final(last, readings) - last <==> last > 0 || Final(last, readings) == 0
    decreases |readings|
  {
    if readings != [] {
      var r, rest := readings[0], readings[1..];
      assert rest != [] ==> r <= rest[0];
      RisingFinal(r, rest);
      ConservedIff(r, rest);
      assert Final(last, readings) == Final(r, rest);
    }
  }

  lemma RisingFinal(last: nat, readings: seq<nat>)
    requires Rising(last, readings)
    ensures last <= Final(last, readings)
  {
  }

  // A reading below the one before it is a reset; the rise from a zero reading is not seen either.

  /** A rising stretch, which leaves zero only at its end if it starts there. */
  ghost predicate IsStretch(part: seq<nat>) {
    part != [] && Rising(part[0], part) && (part[0] > 0 || part[|part| - 1] == 0)
  }

  /** The counter was reset, or showed zero, between the two. */
  predicate Breaks(last: nat, next: nat) {
    last > next || last == 0
  }

  /** The readings cut into stretches wherever nothing is recorded between two of them. */
  ghost predicate AreStretches(parts: seq<seq<nat>>, last: nat) {
    parts != [] ==>
      && IsStretch(parts[0]) && Breaks(last, parts[0][0])
      && AreStretches(parts[1..], parts[0][|parts[0]| - 1])
  }

  function Joined(parts: seq<seq<nat>>): seq<nat> {
    if parts == [] then [] else parts[0] + Joined(parts[1..])
  }

  /** What the counter gained inside the stretches. */
  function Gains(parts: seq<seq<nat>>): int {
    if parts == [] then 0
    else if parts[0] == [] then Gains(parts[1..])
    else parts[0][|parts[0]| - 1] - parts[0][0] + Gains(parts[1..])
  }

  lemma {:induction false} RecordedConcat(last: nat, a: seq<nat>, b: seq<nat>)
    ensures Recorded(last, a + b) == Recorded(last, a) + Recorded(Final(last, a), b)
    decreases |a|
  {
    if a == [] {
      assert a + b == b;
    } else {
      assert (a + b)[1..] == a[1..] + b;
      RecordedConcat(a[0], a[1..], b);
      assert Final(last, a) == Final(a[0], a[1..]);
    }
  }

  lemma StretchRecorded(last: nat, part: seq<nat>)
    requires IsStretch(part) && Breaks(last, part[0])
    ensures Recorded(last, part) == part[|part| - 1] - part[0]
  {
    ConservedIff(part[0], part);
    assert Recorded(last, part) == Recorded(part[0], part);
  }

  lemma {:induction false} StretchesRecorded(last: nat, parts: seq<seq<nat>>)
    requires AreStretches(parts, last)
    ensures Recorded(last, Joined(parts)) == Gains(parts)
    decreases |parts|
  {
    if parts != [] {
      StretchRecorded(last, parts[0]);
      RecordedConcat(last, parts[0], Joined(parts[1..]));
      StretchesRecorded(parts[0][|parts[0]| - 1], parts[1..]);
    }
  }

  /** The cut that every sequence of readings has. */
  ghost function Stretches(readings: seq<nat>, last: nat): (parts: seq<seq<nat>>)
    requires readings != [] ==> Breaks(last, readings[0])
    ensures Joined(parts) == readings && AreStretches(parts, last)
    decreases |readings|
  {
    if readings == [] then []
    else
      var n := StretchLength(readings);
      var part := readings[..n];
      assert readings == part + readings[n..];
      [part] + Stretches(readings[n..], part[n - 1])
  }

  ghost function StretchLength(readings: seq<nat>): (n: nat)
    requires readings != []
    ensures 1 <= n <= |readings| && IsStretch(readings[..n])
    ensures n < |readings| ==> Breaks(readings[n - 1], readings[n])
  {
    if |readings| == 1 || Breaks(readings[0], readings[1]) then 1
    else
      var n := 1 + StretchLength(readings[1..]);
      assert readings[..n] == [readings[0]] + readings[1..][..n - 1];
      n
  }

  /** The counter readings of a run. */
  function Readings(ops: seq<Op>, side: Side): seq<nat> {
    if ops == [] then []
    else
      var op := ops[|ops| - 1];
      Readings(ops[..|ops| - 1], side) + (if op.CollectOp? then [if side == Tx then op.tx else op.rx] else [])
  }

  function LastReading(w: Window, side: Side): nat {
    if side == Tx then w.lastTx else w.lastRx
  }

  lemma {:induction false} RecordedAppend(last: nat, readings: seq<nat>, r: nat)
    ensures Recorded(last, readings + [r]) == Recorded(last, readings) + Delta(Final(last, readings), r)
    decreases |readings|
  {
    var all := readings + [r];
    if readings == [] {
      assert all[1..] == [];
    } else {
      assert all[1..] == readings[1..] + [r];
      RecordedAppend(readings[0], readings[1..], r);
      assert Final(last, readings) == Final(readings[0], readings[1..]);
    }
  }

  /** The history of a run sums to what its counter readings amount to. */
  lemma {:induction false} HistorySums(ops: seq<Op>, side: Side)
    ensures Sum(History(ops), side) == Recorded(0, Readings(ops, side))
    ensures LastReading(After(ops), side) == Final(0, Readings(ops, side))
  {
    if ops != [] {
      var before, op := ops[..|ops| - 1], ops[|ops| - 1];
      HistorySums(before, side);
      if op.CollectOp? {
        RecordedAppend(0, Readings(before, side), if side == Tx then op.tx else op.rx);
        var w := After(before);
        SumAppend(History(before), Taken(w, op.tx, op.rx, op.time), side);
        assert History(ops) == History(before) + [Taken(w, op.tx, op.rx, op.time)];
      } else {
        assert Readings(ops, side) == Readings(before, side);
      }
    }
  }

  /**
   * From a fresh interface, for any readings whatever: what a run records is what the counter gained
   * between its resets, however the readings are cut there, and there always is such a cut.
   */
  lemma TrafficAcrossResets(ops: seq<Op>, side: Side)
    ensures forall parts :: AreStretches(parts, 0) && Joined(parts) == Readings(ops, side) ==>
              Sum(History(ops), side) == Gains(parts)
    ensures exists parts :: AreStretches(parts, 0) && Joined(parts) == Readings(ops, side)
  {
    HistorySums(ops, side);
    forall parts | AreStretches(parts, 0) && Joined(parts) == Readings(ops, side)
      ensures Sum(History(ops), side) == Gains(parts)
    {
      StretchesRecorded(0, parts);
    }
    var cut := Stretches(Readings(ops, side), 0);
    assert AreStretches(cut, 0) && Joined(cut) == Readings(ops, side);
  }

  /**
   * From a fresh interface, a run whose counter starts above zero and never resets accounts for
   * exactly the traffic between its first and last reading.
   */
  lemma TrafficConserved(ops: seq<Op>, side: Side)
    requires var r := Readings(ops, side); r != [] && r[0] > 0 && Rising(0, r)
    ensures var r := Readings(ops, side); Sum(History(ops), side) == r[|r| - 1] - r[0]
  {
    HistorySums(ops, side);
    var r := Readings(ops, side);
    assert r == [r[0]] + r[1..];
    ConservedIff(r[0], r[1..]);
    assert Final(r[0], r[1..]) == r[|r| - 1];
  }

  // ---------------------------------------------------------------- in numbers

  /** What a collect appends: for each counter what it rose by, unless it had shown zero or went back. */
  lemma TakenInNumbers(w: Window, tx: nat, rx: nat, time: nat)
    ensures var c := Collected(w, tx, rx, time);
            && c.samples != [] && c.lastTx == tx && c.lastRx == rx
            && c.samples[|c.samples| - 1] == Sample(time,
                 if w.lastTx > 0 && tx >= w.lastTx then tx - w.lastTx else 0,
                 if w.lastRx > 0 && rx >= w.lastRx then rx - w.lastRx else 0)
  {
  }

  /** The largest total that can be reported. */
  lemma SaturatesInNumbers(x: nat)
    ensures Saturated(x) == if x <= 18446744073709551615 then x else 18446744073709551615
  {
  }

  /** Cleanup keeps the samples of the last 2678400 seconds and no others; before that many have passed, none. */
  lemma CleanupInNumbers(samples: seq<Sample>, now: nat) returns (n: nat)
    requires InOrder(samples) && now < 18446744073709551616
    requires forall i :: 0 <= i < |samples| ==> samples[i].timestamp <= now
    ensures n <= |samples| && CleanedSamples(samples, now) == samples[n..]
    ensures now < 2678400 ==> n == |samples|
    ensures now >= 2678400 ==>
      forall i :: 0 <= i < |samples| ==> (i >= n <==> samples[i].timestamp + 2678400 >= now)
  {
    n := Expired(samples, Cutoff(now));
    if now < 2678400 {
      assert Cutoff(now) == now - PRESERVE_WINDOW + UINT64_MODULUS;
      AllExpired(samples, Cutoff(now));
    } else {
      assert Cutoff(now) == now - PRESERVE_WINDOW;
      forall i | 0 <= i < |samples| ensures i >= n <==> samples[i].timestamp + 2678400 >= now {
        ExpiredIff(samples, Cutoff(now), i);
      }
    }
  }

  /** The size of the buffer that `n` samples have needed. */
  function BufferFor(n: nat): nat {
    if n <= 1024 then 1024 else if n <= 2048 then 2048 else if n <= 4096 then 4096 else if n <= 8192 then 8192
    else if n <= 16384 then 16384 else if n <= 32768 then 32768 else if n <= 65536 then 65536
    else if n <= 131072 then 131072 else 200000
  }

  /** Collects alone store every sample up to 200000, in a buffer that doubles from 1024 as they need it. */
  lemma {:induction false} CollectsInNumbers(ops: seq<Op>)
    requires forall i :: 0 <= i < |ops| ==> ops[i].CollectOp?
    ensures |After(ops).samples| == if |ops| <= 200000 then |ops| else 200000
    ensures After(ops).capacity == BufferFor(|ops|)
  {
    if ops != [] {
      var before, op := ops[..|ops| - 1], ops[|ops| - 1];
      CollectsInNumbers(before);
      assert op.CollectOp?;
      assert After(ops) == Collected(After(before), op.tx, op.rx, op.time);
    }
  }
}
