/**
 * Bootstring with the Punycode parameters (RFC 3492, sections 5 and 6): the encoder of
 * src/network/idn.c as a function of code points.
 */
module Punycode {
  import opened Bytes

  const BASE := 36
  const TMIN := 1
  const TMAX := 26
  const SKEW := 38
  const DAMP := 700
  const INITIAL_BIAS := 72
  const INITIAL_N := 0x80
  const DELIMITER: byte := 45
  /** The encoder's "no candidate yet" value when it looks for the next code point. */
  const NOT_FOUND := 0xFFFF_FFFF

  // ---------------------------------------------------------------- bias and digits

  function Times(x: nat, y: nat): nat {
    x * y
  }

  function Quotient(x: nat, d: nat): (q: nat)
    requires d > 0
  {
    Division(x, d);
    x / d
  }

  function Remainder(x: nat, d: nat): (r: nat)
    requires d > 0
    ensures r < d
  {
    x % d
  }

  lemma Division(x: nat, d: nat)
    requires d > 0
    ensures 0 <= x % d < d && x == x % d + d * (x / d) && 0 <= x / d <= x
  {
    var y := x / d;
    assert y <= d * y by { assert (d - 1) * y >= 0; }
  }

  function AdaptLoop(delta: nat, k: nat): nat {
    if delta > ((BASE - TMIN) * TMAX) / 2
    then AdaptLoop(delta / (BASE - TMIN), k + BASE)
    else k + ((BASE - TMIN + 1) * delta) / (delta + SKEW)
  }

  function Adapt(delta: nat, numPoints: nat, first: bool): nat
    requires numPoints > 0
  {
    var d := if first then delta / DAMP else delta / 2;
    AdaptLoop(d + Quotient(d, numPoints), 0)
  }

  function Threshold(k: nat, bias: nat): (t: nat)
    ensures TMIN <= t <= TMAX
  {
    if k <= bias then TMIN else if k >= bias + TMAX then TMAX else k - bias
  }

  /** Digit values 0-25 are 'a'-'z', 26-35 are '0'-'9'. */
  function DigitChar(d: nat): byte
    requires d < BASE
  {
    if d < 26 then 97 + d else 48 + (d - 26)
  }

  /** The digit written for `q` when more digits follow, and what they still have to carry. */
  function Digit(q: nat, t: nat): (d: nat)
    requires TMIN <= t <= TMAX && t <= q
    ensures t <= d < BASE
  {
    t + Remainder(q - t, BASE - t)
  }

  function Carry(q: nat, t: nat): (r: nat)
    requires TMIN <= t <= TMAX && t <= q
    ensures q == Digit(q, t) + (BASE - t) * r
    ensures r < q
  {
    Division(q - t, BASE - t);
    Quotient(q - t, BASE - t)
  }

  /** A delta as a generalized variable-length integer. */
  function EncodeInt(q: nat, k: nat, bias: nat): seq<byte> {
    var t := Threshold(k, bias);
    if q < t then [DigitChar(q)]
    else [DigitChar(Digit(q, t))] + EncodeInt(Carry(q, t), k + BASE, bias)
  }

  // ---------------------------------------------------------------- the encoder

  /** Code points already emitted when the scan for `n` has reached index `j`. */
  predicate Done(c: nat, k: nat, n: nat, j: nat) {
    c < n || (c == n && k < j)
  }

  /** The emitted code points, in their input order. */
  function Emitted(cps: seq<nat>, n: nat, j: nat): seq<nat> {
    if cps == [] then []
    else
      var last := |cps| - 1;
      Emitted(cps[..last], n, j) + (if Done(cps[last], last, n, j) then [cps[last]] else [])
  }

  /** The smallest code point at or above `n`, as the scan over `cps` finds it. */
  function MinAtLeast(cps: seq<nat>, n: nat): nat {
    if cps == [] then NOT_FOUND
    else
      var last := |cps| - 1;
      var m := MinAtLeast(cps[..last], n);
      if cps[last] >= n && cps[last] < m then cps[last] else m
  }

  ghost predicate InRange(cps: seq<nat>) {
    forall k :: 0 <= k < |cps| ==> cps[k] < NOT_FOUND
  }

  /** Moving from code point `n` to `m` costs one delta per insertion slot and code point skipped. */
  function Jump(delta: nat, n: nat, m: nat, h: nat): nat
    requires n <= m
  {
    delta + (m - n) * (h + 1)
  }

  /** What the passes from code point `n` on still write. */
  function Passes(cps: seq<nat>, n: nat, delta: nat, bias: nat, h: nat, b: nat): seq<byte>
    requires InRange(cps) && h == |Emitted(cps, n, 0)|
    decreases NOT_FOUND + 1 - n, |cps| + 1
  {
    if h >= |cps| then []
    else
      NextCodePoint(cps, n);
      var m := MinAtLeast(cps, n);
      Scan(cps, m, 0, Jump(delta, n, m, h), bias, h, b)
  }

  /** What the scan for code point `n` still writes from index `j` on. */
  function Scan(cps: seq<nat>, n: nat, j: nat, delta: nat, bias: nat, h: nat, b: nat): seq<byte>
    requires InRange(cps) && n < NOT_FOUND && j <= |cps| && h == |Emitted(cps, n, j)|
    decreases NOT_FOUND + 1 - n, |cps| - j
  {
    if j == |cps| then
      EndOfScan(cps, n);
      Passes(cps, n + 1, delta + 1, bias, h, b)
    else if cps[j] == n then
      InsertPoint(cps, n, j);
      EncodeInt(delta, BASE, bias) + Scan(cps, n, j + 1, 0, Adapt(delta, h + 1, h == b), h + 1, b)
    else
      SkipPoint(cps, n, j);
      Scan(cps, n, j + 1, if cps[j] < n then delta + 1 else delta, bias, h, b)
  }

  /** The whole encoder: basic code points, the delimiter it writes only if more follows, the deltas. */
  function Encode(cps: seq<nat>): seq<byte>
    requires InRange(cps)
  {
    var basic := Emitted(cps, INITIAL_N, 0);
    var b := |basic|;
    EmittedBelow(cps, INITIAL_N);
    Basics(cps) + (if b > 0 && b < |cps| then [DELIMITER] else [])
    + Passes(cps, INITIAL_N, 0, INITIAL_BIAS, b, b)
  }

  /** The basic code points of the input, as octets. */
  function Basics(cps: seq<nat>): (r: seq<byte>)
    ensures r == Emitted(cps, INITIAL_N, 0)
    ensures forall k :: 0 <= k < |r| ==> r[k] < INITIAL_N
  {
    if cps == [] then []
    else
      var last := |cps| - 1;
      Basics(cps[..last]) + (if cps[last] < INITIAL_N then [cps[last]] else [])
  }

  // ---------------------------------------------------------------- bookkeeping of emitted code points

  lemma {:induction false} EmittedLength(cps: seq<nat>, n: nat, j: nat)
    ensures |Emitted(cps, n, j)| <= |cps|
    ensures |Emitted(cps, n, j)| == |cps| <==> forall k :: 0 <= k < |cps| ==> Done(cps[k], k, n, j)
    ensures |Emitted(cps, n, j)| == |cps| ==> Emitted(cps, n, j) == cps
  {
    if cps != [] {
      var last := |cps| - 1;
      EmittedLength(cps[..last], n, j);
      assert cps == cps[..last] + [cps[last]];
      if forall k :: 0 <= k < last ==> Done(cps[..last][k], k, n, j) {
        assert forall k :: 0 <= k < last ==> Done(cps[k], k, n, j) by {
          assert forall k :: 0 <= k < last ==> cps[..last][k] == cps[k];
        }
      } else {
        var k :| 0 <= k < last && !Done(cps[..last][k], k, n, j);
        assert !Done(cps[k], k, n, j);
      }
    }
  }

  /** Two scan positions that have emitted the same elements agree on the output so far. */
  lemma {:induction false} EmittedSame(cps: seq<nat>, n: nat, j: nat, n': nat, j': nat)
    requires forall k :: 0 <= k < |cps| ==> (Done(cps[k], k, n, j) <==> Done(cps[k], k, n', j'))
    ensures Emitted(cps, n, j) == Emitted(cps, n', j')
  {
    if cps != [] {
      var last := |cps| - 1;
      forall k | 0 <= k < last
        ensures Done(cps[..last][k], k, n, j) <==> Done(cps[..last][k], k, n', j')
      {
        assert cps[..last][k] == cps[k];
      }
      EmittedSame(cps[..last], n, j, n', j');
    }
  }

  lemma {:induction false} MinAtLeastIsMin(cps: seq<nat>, n: nat)
    requires InRange(cps)
    ensures MinAtLeast(cps, n) == NOT_FOUND || (MinAtLeast(cps, n) in cps && MinAtLeast(cps, n) >= n)
    ensures forall k :: 0 <= k < |cps| && cps[k] >= n ==> MinAtLeast(cps, n) <= cps[k]
  {
    if cps != [] {
      var last := |cps| - 1;
      MinAtLeastIsMin(cps[..last], n);
      forall k | 0 <= k < |cps| && cps[k] >= n ensures MinAtLeast(cps, n) <= cps[k] {
        if k < last { assert cps[..last][k] == cps[k]; }
      }
    }
  }

  /** While code points remain, the next one exists and skips nothing. */
  lemma NextCodePoint(cps: seq<nat>, n: nat)
    requires InRange(cps) && |Emitted(cps, n, 0)| < |cps|
    ensures var m := MinAtLeast(cps, n);
            n <= m < NOT_FOUND && m in cps && Emitted(cps, m, 0) == Emitted(cps, n, 0)
  {
    EmittedLength(cps, n, 0);
    MinAtLeastIsMin(cps, n);
    var m := MinAtLeast(cps, n);
    EmittedSame(cps, n, 0, m, 0);
  }

  lemma EndOfScan(cps: seq<nat>, n: nat)
    ensures Emitted(cps, n + 1, 0) == Emitted(cps, n, |cps|)
  {
    EmittedSame(cps, n + 1, 0, n, |cps|);
  }

  lemma SkipPoint(cps: seq<nat>, n: nat, j: nat)
    requires j < |cps| && cps[j] != n
    ensures Emitted(cps, n, j + 1) == Emitted(cps, n, j)
  {
    EmittedSame(cps, n, j + 1, n, j);
  }

  lemma EmittedBelow(cps: seq<nat>, n: nat)
    ensures |Emitted(cps, n, 0)| <= |cps|
  {
    EmittedLength(cps, n, 0);
  }

  /** Where the code point at index `j` belongs among those emitted: after every earlier one not above it. */
  function Position(cps: seq<nat>, n: nat, j: nat): nat
    requires j <= |cps|
  {
    |Emitted(cps[..j], n, j)|
  }

  lemma PositionStep(cps: seq<nat>, n: nat, j: nat)
    requires j < |cps|
    ensures Position(cps, n, j + 1) == Position(cps, n, j) + (if cps[j] <= n then 1 else 0)
  {
    assert cps[..j + 1][..j] == cps[..j];
    EmittedSame(cps[..j], n, j + 1, n, j);
  }

  lemma {:induction false} PositionWithin(cps: seq<nat>, n: nat, j: nat)
    requires j <= |cps|
    ensures Position(cps, n, j) <= |Emitted(cps, n, j)|
    ensures Emitted(cps[..j], n, j) <= Emitted(cps, n, j)
  {
    if j < |cps| {
      var last := |cps| - 1;
      PositionWithin(cps[..last], n, j);
      assert cps[..last][..j] == cps[..j];
    } else {
      assert cps[..j] == cps;
    }
  }

  /** Emitting the code point at `j` inserts it at its position and moves nothing else. */
  lemma {:induction false} InsertPoint(cps: seq<nat>, n: nat, j: nat)
    requires j < |cps| && cps[j] == n
    ensures Position(cps, n, j) <= |Emitted(cps, n, j)|
    ensures var p, e := Position(cps, n, j), Emitted(cps, n, j);
            Emitted(cps, n, j + 1) == e[..p] + [n] + e[p..]
  {
    var last := |cps| - 1;
    var p := Position(cps, n, j);
    PositionWithin(cps, n, j);
    var e := Emitted(cps, n, j);
    if j == last {
      EmittedSame(cps[..last], n, j + 1, n, j);
      assert e[..p] == e && e[p..] == [];
    } else {
      InsertPoint(cps[..last], n, j);
      assert cps[..last][..j] == cps[..j];
      var e0 := Emitted(cps[..last], n, j);
      var tail := if Done(cps[last], last, n, j) then [cps[last]] else [];
      assert e == e0 + tail;
      assert e[..p] == e0[..p] && e[p..] == e0[p..] + tail;
    }
  }
}
