/**
 * The encoding loops of src/network/idn.c:95-193 over a caller's output buffer, proved against
 * `Punycode.Encode`. What the C code keeps in an `int` is an `int32` here, so every assignment
 * carries a proof that it does not overflow.
 */
module PunycodeEncoder {
  import opened Bytes
  import opened Punycode
  import opened PunycodeRoundTrip
  import Rfc3492
  import Utf8

  const UINT32_MAX := 0xFFFF_FFFF

  ghost predicate Bounded(cps: seq<nat>) {
    |cps| <= Utf8.IDN_MAX_INPUT_LEN && forall k :: 0 <= k < |cps| ==> cps[k] <= Utf8.MAX_DECODED
  }

  /**
   * The pending delta always fits a signed 32-bit int, even while it still counts the code points
   * of the current scan, so the narrowing to int is exact.
   */
  lemma DeltaFits(cps: seq<nat>, n: nat, j: nat, delta: nat, h: nat, b: nat, dn: nat, di: nat)
    requires Bounded(cps) && InStep(cps, n, j, delta, h, b, dn, di)
    requires h < |cps| && INITIAL_N <= dn && n <= Utf8.MAX_DECODED
    ensures delta <= (Utf8.MAX_DECODED - INITIAL_N) * 1024 + 1023 < INT_MAX
    ensures ToInt(delta) == delta
  {
    PositionWithin(cps, n, j);
    ProductBound(n - dn, Utf8.MAX_DECODED - INITIAL_N, h + 1, 1024);
  }

  lemma ProductBound(x: nat, x': nat, y: nat, y': nat)
    requires x <= x' && y <= y'
    ensures x * y <= x' * y'
  {
    assert x * y <= x * y' by { assert x * (y' - y) >= 0; }
    assert x * y' <= x' * y' by { assert (x' - x) * y' >= 0; }
  }

  /** Hence the guard against 32-bit overflow before the jump to the next code point never fires. */
  lemma JumpGuardNeverFires(cps: seq<nat>, n: nat, m: nat, delta: nat, h: nat, b: nat, dn: nat, di: nat)
    requires Bounded(cps) && InStep(cps, n, 0, delta, h, b, dn, di)
    requires h < |cps| && INITIAL_N <= dn && n <= m <= Utf8.MAX_DECODED
    requires Emitted(cps, m, 0) == Emitted(cps, n, 0)
    ensures Jump(delta, n, m, h) < INT_MAX
    ensures m - n <= (UINT32_MAX - delta) / (h + 1)
  {
    JumpKeepsStep(cps, n, m, delta, h, b, dn, di);
    DeltaFits(cps, m, 0, Jump(delta, n, m, h), h, b, dn, di);
    GuardFromBound(m - n, h + 1, UINT32_MAX - delta);
  }

  lemma GuardFromBound(x: nat, c: nat, limit: nat)
    requires c > 0 && x * c <= limit
    ensures x <= limit / c
  {
    Division(limit, c);
    assert (x - limit / c) * c <= limit % c;
    if x - limit / c >= 1 { ProductBound(1, x - limit / c, c, c); }
  }

  // ---------------------------------------------------------------- bias and digits within an int

  const MAX_BIAS := 215
  const MAX_DIGITS := 11

  /** The most the local delta of the adaptation can still be once `k` has reached this value. */
  function AdaptLimit(k: nat): nat {
    if k < BASE then INT_MAX else AdaptLimit(k - BASE) / (BASE - TMIN)
  }

  /** The loop of the adaptation with these values ends in time. */
  predicate Adapting(d: nat, k: nat) {
    k in {0, 36, 72, 108, 144, 180} && d <= AdaptLimit(k)
  }

  lemma AdaptTurn(d: nat, k: nat)
    requires Adapting(d, k) && d > ((BASE - TMIN) * TMAX) / 2
    ensures Adapting(d / (BASE - TMIN), k + BASE)
  {
    assert AdaptLimit(0) == INT_MAX && AdaptLimit(36) == 61356675 && AdaptLimit(72) == 1753047;
    assert AdaptLimit(108) == 50087 && AdaptLimit(144) == 1431 && AdaptLimit(180) == 40;
  }

  lemma QuotientBelow(x: nat, y: nat, limit: nat)
    requires 0 < y && x < limit * y
    ensures x / y < limit
  {
    Division(x, y);
    if x / y >= limit { ProductBound(limit, x / y, y, y); }
  }

  lemma AdaptEnd(d: nat, k: nat)
    requires Adapting(d, k) && d <= ((BASE - TMIN) * TMAX) / 2
    ensures k + ((BASE - TMIN + 1) * d) / (d + SKEW) <= MAX_BIAS
  {
    QuotientBelow((BASE - TMIN + 1) * d, d + SKEW, BASE);
  }

  lemma {:induction false} AdaptLoopBound(d: nat, k: nat)
    requires Adapting(d, k)
    ensures AdaptLoop(d, k) <= MAX_BIAS
    decreases d
  {
    if d > ((BASE - TMIN) * TMAX) / 2 {
      AdaptTurn(d, k);
      AdaptLoopBound(d / (BASE - TMIN), k + BASE);
    } else {
      AdaptEnd(d, k);
    }
  }

  /** Adding the share of `numPoints` to the damped or halved delta does not overflow. */
  lemma AdaptStarts(delta: nat, numPoints: nat, first: bool)
    requires delta <= INT_MAX && numPoints >= 1 && (first || numPoints >= 2)
    ensures var d := if first then delta / DAMP else delta / 2;
            d + Quotient(d, numPoints) <= INT_MAX
  {
    var d := if first then delta / DAMP else delta / 2;
    Division(d, numPoints);
    if numPoints >= 2 { ProductBound(2, numPoints, d / numPoints, d / numPoints); }
  }

  /** The bias stays small whatever the delta. */
  lemma AdaptBound(delta: nat, numPoints: nat, first: bool)
    requires delta <= INT_MAX && numPoints >= 1 && (first || numPoints >= 2)
    ensures Adapt(delta, numPoints, first) <= MAX_BIAS
  {
    AdaptStarts(delta, numPoints, first);
    var d := if first then delta / DAMP else delta / 2;
    assert AdaptLimit(0) == INT_MAX;
    AdaptLoopBound(d + Quotient(d, numPoints), 0);
  }

  /** The bias adaptation loop; every value it computes fits an `int`. */
  method AdaptBias(delta: int32, numPoints: int32, first: bool) returns (bias: int32)
    requires delta >= 0 && numPoints >= 1 && (first || numPoints >= 2)
    ensures 0 <= bias <= 215
    ensures bias == Adapt(delta, numPoints, first) == Rfc3492.AdaptedBias(delta, numPoints, first)
  {
    AdaptStarts(delta, numPoints, first);
    AdaptBound(delta, numPoints, first);
    SameBias(delta, numPoints, first);
    var d: int32 := if first then delta / DAMP else delta / 2;
    d := d + Quotient(d, numPoints);
    var k: int32 := 0;
    assert AdaptLimit(0) == INT_MAX;
    while d > ((BASE - TMIN) * TMAX) / 2
      invariant d >= 0 && k >= 0 && Adapting(d, k)
      invariant AdaptLoop(d, k) == Adapt(delta, numPoints, first)
      decreases d
    {
      AdaptTurn(d, k);
      d := d / (BASE - TMIN);
      k := k + BASE;
    }
    var scaled: int32, below: int32 := (BASE - TMIN + 1) * d, d + SKEW;
    AdaptEnd(d, k);
    bias := k + scaled / below;
  }

  /** The most that can be left to write when `k` has reached this value: a digit takes off a factor of ten. */
  function DigitLimit(k: nat): nat {
    if k <= BASE then INT_MAX else DigitLimit(k - BASE) / 10
  }

  /** The digit loop with these values ends in time. */
  predicate Writing(q: nat, k: nat) {
    k in {36, 72, 108, 144, 180, 216, 252, 288, 324, 360, 396} && q <= DigitLimit(k)
  }

  lemma DigitTurn(q: nat, k: nat, bias: nat)
    requires Writing(q, k) && q >= Threshold(k, bias)
    ensures Writing(Carry(q, Threshold(k, bias)), k + BASE)
  {
    var t := Threshold(k, bias);
    var r := Carry(q, t);
    ProductBound(10, BASE - t, r, r);
    assert DigitLimit(396) == 0 by { DigitLimits(); }
    assert DigitLimit(k + BASE) == DigitLimit(k) / 10;
  }

  lemma DigitLimits()
    ensures DigitLimit(396) == 0
  {
    assert DigitLimit(36) == INT_MAX && DigitLimit(72) == 214748364 && DigitLimit(108) == 21474836;
    assert DigitLimit(144) == 2147483 && DigitLimit(180) == 214748 && DigitLimit(216) == 21474;
    assert DigitLimit(252) == 2147 && DigitLimit(288) == 214 && DigitLimit(324) == 21 && DigitLimit(360) == 2;
  }

  /** A delta takes at most eleven digits. */
  lemma {:induction false} IntLength(q: nat, k: nat, bias: nat)
    requires Writing(q, k)
    ensures |EncodeInt(q, k, bias)| <= MAX_DIGITS + 1 - k / BASE
    decreases q
  {
    if q >= Threshold(k, bias) {
      DigitTurn(q, k, bias);
      IntLength(Carry(q, Threshold(k, bias)), k + BASE, bias);
    }
  }

  /** The scan for the smallest code point not below `n`. */
  method FindNext(cps: seq<nat>, n: nat) returns (m: nat)
    ensures m == MinAtLeast(cps, n)
  {
    m := NOT_FOUND;
    for i := 0 to |cps|
      invariant m == MinAtLeast(cps[..i], n)
    {
      assert cps[..i + 1][..i] == cps[..i];
      if cps[i] >= n && cps[i] < m {
        m := cps[i];
      }
    }
    assert cps[..|cps|] == cps;
  }

  /** Writes one delta as digits, or stops when the buffer has no room left before its terminator. */
  method WriteInt(output: array<byte>, start: nat, delta: int32, bias: int32) returns (ok: bool, end: nat)
    requires start < output.Length && delta >= 0 && 0 <= bias <= MAX_BIAS
    modifies output
    ensures output[..start] == old(output[..start])
    ensures ok <==> start + |EncodeInt(delta, BASE, bias)| < output.Length
    ensures ok ==> end == start + |EncodeInt(delta, BASE, bias)|
    ensures ok ==> output[start..end] == EncodeInt(delta, BASE, bias)
  {
    ghost var all := EncodeInt(delta, BASE, bias);
    var q: int32, k: int32 := delta, BASE;
    assert DigitLimit(BASE) == INT_MAX;
    IntLength(delta, BASE, bias);
    end := start;
    while q >= Threshold(k, bias)
      invariant start <= end < output.Length && 0 <= q <= delta && k == BASE * (1 + end - start)
      invariant output[..start] == old(output[..start])
      invariant output[start..end] + EncodeInt(q, k, bias) == all
      decreases q
    {
      var t: int32, top: int32 := Threshold(k, bias), bias + TMAX;
      if end >= output.Length - 1 { return false, end; }
      output[end] := DigitChar(Digit(q, t));
      AppendCell(output, start, end, EncodeInt(q, k, bias), EncodeInt(Carry(q, t), k + BASE, bias), all);
      end := end + 1;
      q, k := Carry(q, t), k + BASE;
    }
    if end >= output.Length - 1 { return false, end; }
    output[end] := DigitChar(q);
    AppendCell(output, start, end, EncodeInt(q, k, bias), [], all);
    return true, end + 1;
  }

  /** Moving the first pending octet into the buffer keeps written plus pending the same. */
  lemma AppendCell(output: array<byte>, start: nat, end: nat, pending: seq<byte>, pending': seq<byte>, all: seq<byte>)
    requires start <= end < output.Length
    requires pending == [output[end]] + pending'
    requires output[start..end] + pending == all
    ensures output[start..end + 1] + pending' == all
  {
    assert output[start..end + 1] == output[start..end] + [output[end]];
  }

  // ---------------------------------------------------------------- one scan over the code points

  /** Mid-scan: in step with a decoder, and written plus still to be written is `all`. */
  ghost predicate Scanning(cps: seq<nat>, n: nat, j: nat, delta: nat, bias: nat, h: nat, b: nat,
                           dn: nat, di: nat, written: seq<byte>, all: seq<byte>)
  {
    && Bounded(cps) && n <= Utf8.MAX_DECODED && INITIAL_N <= dn && bias <= MAX_BIAS
    && InStep(cps, n, j, delta, h, b, dn, di)
    && written + Scan(cps, n, j, delta, bias, h, b) == all
  }

  lemma ScanningSkip(cps: seq<nat>, n: nat, j: nat, delta: nat, bias: nat, h: nat, b: nat,
                     dn: nat, di: nat, written: seq<byte>, all: seq<byte>)
    requires Scanning(cps, n, j, delta, bias, h, b, dn, di, written, all) && j < |cps| && cps[j] != n
    ensures Scanning(cps, n, j + 1, if cps[j] < n then delta + 1 else delta, bias, h, b, dn, di, written, all)
  {
    SkipPoint(cps, n, j);
    SkipKeepsStep(cps, n, j, delta, h, b, dn, di);
  }

  lemma MatchCounts(cps: seq<nat>, n: nat, j: nat)
    requires j < |cps| && cps[j] == n
    ensures |Emitted(cps, n, j)| < |cps|
  {
    InsertPoint(cps, n, j);
    EmittedLength(cps, n, j + 1);
  }

  /** At a match everything that is narrowed to an `int` fits one. */
  lemma MatchFits(cps: seq<nat>, n: nat, j: nat, delta: nat, bias: nat, h: nat, b: nat,
                  dn: nat, di: nat, written: seq<byte>, all: seq<byte>)
    requires Scanning(cps, n, j, delta, bias, h, b, dn, di, written, all) && j < |cps| && cps[j] == n
    ensures h < |cps| && (h == b || h + 1 >= 2) && bias <= MAX_BIAS
    ensures delta < INT_MAX && ToInt(delta) == delta && ToInt(h + 1) == h + 1
    ensures Adapt(delta, h + 1, h == b) <= MAX_BIAS
  {
    MatchCounts(cps, n, j);
    ToIntExact(h + 1);
    DeltaFits(cps, n, j, delta, h, b, dn, di);
    AdaptBound(delta, h + 1, h == b);
  }

  lemma ScanningInsert(cps: seq<nat>, n: nat, j: nat, delta: nat, bias: nat, h: nat, b: nat,
                       dn: nat, di: nat, written: seq<byte>, all: seq<byte>)
    requires Scanning(cps, n, j, delta, bias, h, b, dn, di, written, all) && j < |cps| && cps[j] == n
    ensures |written| + |EncodeInt(delta, BASE, bias)| <= |all|
    ensures Scanning(cps, n, j + 1, 0, Adapt(delta, h + 1, h == b), h + 1, b, n, Position(cps, n, j) + 1,
                     written + EncodeInt(delta, BASE, bias), all)
  {
    MatchFits(cps, n, j, delta, bias, h, b, dn, di, written, all);
    InsertKeepsStep(cps, n, j, delta, h, b, dn, di);
    ScanWrites(cps, n, j, delta, bias, h, b);
    var digits, rest := EncodeInt(delta, BASE, bias), Scan(cps, n, j + 1, 0, Adapt(delta, h + 1, h == b), h + 1, b);
    Assoc(written, digits, rest);
  }

  /** A `size_t` never wraps while the delta counts. */
  lemma DeltaIsSize(cps: seq<nat>, n: nat, j: nat, delta: nat, h: nat, b: nat, dn: nat, di: nat)
    requires Bounded(cps) && InStep(cps, n, j, delta, h, b, dn, di) && n <= Utf8.MAX_DECODED + 1
    ensures delta + 1 < SIZE_MODULUS
  {
    PositionWithin(cps, n, j);
    EmittedLength(cps, n, j);
    ProductBound(n - dn, Utf8.MAX_DECODED + 1, h + 1, 1025);
  }

  const SIZE_MODULUS := 0x1_0000_0000_0000_0000

  /** One match of the scan: its delta is written and the bias adapted. */
  method EmitPoint(cps: seq<nat>, n: nat, j: nat, output: array<byte>, out: nat, delta: nat, bias: nat, h: nat, b: nat,
                   ghost dn: nat, ghost di: nat, ghost all: seq<byte>)
    returns (ok: bool, end: nat, bias': nat)
    requires out < output.Length && j < |cps| && cps[j] == n
    requires Scanning(cps, n, j, delta, bias, h, b, dn, di, output[..out], all)
    modifies output
    ensures ok ==> end < output.Length
    ensures ok ==> Scanning(cps, n, j + 1, 0, bias', h + 1, b, n, Position(cps, n, j) + 1, output[..end], all)
    ensures !ok ==> |all| >= output.Length
  {
    MatchFits(cps, n, j, delta, bias, h, b, dn, di, output[..out], all);
    ScanningInsert(cps, n, j, delta, bias, h, b, dn, di, output[..out], all);
    ghost var written := output[..out];
    var q: int32, count: int32 := ToInt(delta), ToInt(h + 1);
    ok, end := WriteInt(output, out, q, bias);
    bias' := AdaptBias(q, count, h == b);
    if ok { assert output[..end] == written + output[out..end]; }
  }

  /** The scan for code point `n`: counts, writes a delta per match, adapts the bias. */
  method ScanFor(cps: seq<nat>, n: nat, output: array<byte>, out0: nat, delta0: nat, bias0: nat, h0: nat, b: nat,
                 ghost dn0: nat, ghost di0: nat, ghost all: seq<byte>)
    returns (ok: bool, out: nat, delta: nat, bias: nat, h: nat, ghost dn: nat, ghost di: nat)
    requires out0 < output.Length
    requires Scanning(cps, n, 0, delta0, bias0, h0, b, dn0, di0, output[..out0], all)
    modifies output
    ensures ok ==> out < output.Length && Scanning(cps, n, |cps|, delta, bias, h, b, dn, di, output[..out], all)
    ensures !ok ==> |all| >= output.Length
  {
    ok, out, delta, bias, h, dn, di := true, out0, delta0, bias0, h0, dn0, di0;
    for j := 0 to |cps|
      invariant ok && out < output.Length
      invariant Scanning(cps, n, j, delta, bias, h, b, dn, di, output[..out], all)
    {
      if cps[j] == n {
        ok, out, bias := EmitPoint(cps, n, j, output, out, delta, bias, h, b, dn, di, all);
        if !ok { return; }
        dn, di := n, Position(cps, n, j) + 1;
        delta, h := 0, h + 1;
      } else {
        ScanningSkip(cps, n, j, delta, bias, h, b, dn, di, output[..out], all);
        if cps[j] < n {
          DeltaIsSize(cps, n, j, delta, h, b, dn, di);
          delta := (delta + 1) % SIZE_MODULUS;
          if delta == 0 { ok := false; return; }
        }
      }
    }
  }

  // ---------------------------------------------------------------- the whole encoder

  /** Between scans: as `Scanning`, with whole passes left. */
  ghost predicate Passing(cps: seq<nat>, n: nat, delta: nat, bias: nat, h: nat, b: nat,
                          dn: nat, di: nat, written: seq<byte>, all: seq<byte>)
  {
    && Bounded(cps) && n <= Utf8.MAX_DECODED + 1 && INITIAL_N <= dn && bias <= MAX_BIAS
    && InStep(cps, n, 0, delta, h, b, dn, di)
    && written + Passes(cps, n, delta, bias, h, b) == all
  }

  lemma PassStarts(cps: seq<nat>, n: nat, delta: nat, bias: nat, h: nat, b: nat,
                   dn: nat, di: nat, written: seq<byte>, all: seq<byte>)
    requires Passing(cps, n, delta, bias, h, b, dn, di, written, all) && h < |cps|
    ensures var m := MinAtLeast(cps, n);
            && n <= m && m in cps && m - n <= (UINT32_MAX - delta) / (h + 1)
            && Emitted(cps, m, 0) == Emitted(cps, n, 0)
            && Scanning(cps, m, 0, Jump(delta, n, m, h), bias, h, b, dn, di, written, all)
  {
    NextCodePoint(cps, n);
    var m := MinAtLeast(cps, n);
    JumpGuardNeverFires(cps, n, m, delta, h, b, dn, di);
    JumpKeepsStep(cps, n, m, delta, h, b, dn, di);
  }

  /** A pass for a code point that occurs leaves the count of emitted code points higher. */
  lemma PassEnds(cps: seq<nat>, n: nat, delta: nat, bias: nat, h: nat, b: nat,
                 dn: nat, di: nat, written: seq<byte>, all: seq<byte>)
    requires Scanning(cps, n, |cps|, delta, bias, h, b, dn, di, written, all)
    ensures Passing(cps, n + 1, delta + 1, bias, h, b, dn, di, written, all)
    ensures n in cps ==> h > |Emitted(cps, n, 0)|
  {
    EndOfScan(cps, n);
    EndKeepsStep(cps, n, delta, h, b, dn, di);
    if n in cps {
      var j :| 0 <= j < |cps| && cps[j] == n;
      EmittedGrows(cps, n, 0, j);
      InsertPoint(cps, n, j);
      EmittedGrows(cps, n, j + 1, |cps|);
    }
  }

  lemma {:induction false} EmittedGrows(cps: seq<nat>, n: nat, j: nat, j': nat)
    requires j <= j' <= |cps|
    ensures |Emitted(cps, n, j)| <= |Emitted(cps, n, j')|
    decreases j' - j
  {
    if j < j' {
      if cps[j] == n { InsertPoint(cps, n, j); } else { SkipPoint(cps, n, j); }
      EmittedGrows(cps, n, j + 1, j');
    }
  }

  /** Copies the basic code points; the buffer always keeps room for the terminator. */
  method CopyBasics(cps: seq<nat>, output: array<byte>) returns (ok: bool, out: nat)
    requires output.Length > 0
    modifies output
    ensures ok <==> |Basics(cps)| < output.Length
    ensures ok ==> out == |Basics(cps)| && output[..out] == Basics(cps)
  {
    out := 0;
    for i := 0 to |cps|
      invariant out < output.Length && output[..out] == Basics(cps[..i])
    {
      assert cps[..i + 1][..i] == cps[..i];
      if cps[i] < INITIAL_N {
        if out >= output.Length - 1 {
          BasicsPrefix(cps, i + 1);
          return false, out;
        }
        output[out] := cps[i];
        assert output[..out + 1] == output[..out] + [cps[i]];
        out := out + 1;
      }
    }
    assert cps[..|cps|] == cps;
    ok := true;
  }

  lemma {:induction false} BasicsPrefix(cps: seq<nat>, i: nat)
    requires i <= |cps|
    ensures Basics(cps[..i]) <= Basics(cps)
  {
    if i == |cps| {
      assert cps[..i] == cps;
    } else {
      assert cps[..|cps| - 1][..i] == cps[..i];
      BasicsPrefix(cps[..|cps| - 1], i);
    }
  }

  /** What the encoder returns and leaves in a buffer of `size` octets. */
  ghost predicate Encoded(cps: seq<nat>, rc: int, buffer: seq<byte>)
    requires InRange(cps)
  {
    var e := Encode(cps);
    if |e| < |buffer| then rc == 0 && buffer[..|e| + 1] == e + [0] else rc == -2
  }

  function Prefix(cps: seq<nat>): seq<byte> {
    Basics(cps) + (if |Basics(cps)| > 0 && |Basics(cps)| < |cps| then [DELIMITER] else [])
  }

  lemma StartOfDeltas(cps: seq<nat>)
    requires Bounded(cps)
    ensures var b := |Basics(cps)|;
            Passing(cps, INITIAL_N, 0, INITIAL_BIAS, b, b, INITIAL_N, 0, Prefix(cps), Encode(cps))
    ensures |Prefix(cps)| <= |Encode(cps)|
  {
    EmittedBelow(cps, INITIAL_N);
    assert cps[..0] == [];
  }

  // ---------------------------------------------------------------- how long an encoding can get

  lemma MatchLength(cps: seq<nat>, n: nat, j: nat, delta: nat, bias: nat, h: nat, b: nat, dn: nat, di: nat)
    requires Bounded(cps) && InStep(cps, n, j, delta, h, b, dn, di) && INITIAL_N <= dn && n <= Utf8.MAX_DECODED
    requires j < |cps| && cps[j] == n
    ensures h < |cps| && |Emitted(cps, n, j + 1)| == h + 1
    ensures |Scan(cps, n, j, delta, bias, h, b)|
         <= MAX_DIGITS + |Scan(cps, n, j + 1, 0, Adapt(delta, h + 1, h == b), h + 1, b)|
  {
    MatchCounts(cps, n, j);
    DeltaFits(cps, n, j, delta, h, b, dn, di);
    assert DigitLimit(BASE) == INT_MAX;
    IntLength(delta, BASE, bias);
    ScanWrites(cps, n, j, delta, bias, h, b);
  }

  lemma {:induction false} ScanLength(cps: seq<nat>, n: nat, j: nat, delta: nat, bias: nat, h: nat, b: nat,
                                       dn: nat, di: nat)
    requires Bounded(cps) && InStep(cps, n, j, delta, h, b, dn, di) && INITIAL_N <= dn && n <= Utf8.MAX_DECODED
    ensures h <= |cps| && |Scan(cps, n, j, delta, bias, h, b)| <= MAX_DIGITS * (|cps| - h)
    decreases NOT_FOUND + 1 - n, |cps| - j
  {
    EmittedLength(cps, n, j);
    if j == |cps| {
      EndKeepsStep(cps, n, delta, h, b, dn, di);
      PassesLength(cps, n + 1, delta + 1, bias, h, b, dn, di);
    } else if cps[j] == n {
      MatchLength(cps, n, j, delta, bias, h, b, dn, di);
      InsertKeepsStep(cps, n, j, delta, h, b, dn, di);
      ScanLength(cps, n, j + 1, 0, Adapt(delta, h + 1, h == b), h + 1, b, n, Position(cps, n, j) + 1);
    } else {
      SkipPoint(cps, n, j);
      SkipKeepsStep(cps, n, j, delta, h, b, dn, di);
      ScanLength(cps, n, j + 1, if cps[j] < n then delta + 1 else delta, bias, h, b, dn, di);
    }
  }

  lemma {:induction false} PassesLength(cps: seq<nat>, n: nat, delta: nat, bias: nat, h: nat, b: nat,
                                         dn: nat, di: nat)
    requires Bounded(cps) && InStep(cps, n, 0, delta, h, b, dn, di) && INITIAL_N <= dn && n <= Utf8.MAX_DECODED + 1
    ensures h <= |cps| && |Passes(cps, n, delta, bias, h, b)| <= MAX_DIGITS * (|cps| - h)
    decreases NOT_FOUND + 1 - n, |cps| + 1
  {
    EmittedLength(cps, n, 0);
    if h < |cps| {
      NextCodePoint(cps, n);
      var m := MinAtLeast(cps, n);
      JumpKeepsStep(cps, n, m, delta, h, b, dn, di);
      ScanLength(cps, m, 0, Jump(delta, n, m, h), bias, h, b, dn, di);
    }
  }

  /** An encoding takes at most eleven octets per code point. */
  lemma EncodeLength(cps: seq<nat>)
    requires Bounded(cps)
    ensures |Encode(cps)| <= MAX_DIGITS * |cps|
  {
    var b := |Basics(cps)|;
    EmittedBelow(cps, INITIAL_N);
    assert cps[..0] == [];
    PassesLength(cps, INITIAL_N, 0, INITIAL_BIAS, b, b, INITIAL_N, 0);
  }

  // ---------------------------------------------------------------- the output buffer

  method EncodePrefix(cps: seq<nat>, output: array<byte>) returns (ok: bool, b: nat, out: nat)
    requires output.Length > 0
    modifies output
    ensures ok <==> |Prefix(cps)| < output.Length
    ensures ok ==> b == |Basics(cps)| && out == |Prefix(cps)| && output[..out] == Prefix(cps)
  {
    ok, out := CopyBasics(cps, output);
    b := out;
    if ok && b > 0 && b < |cps| {
      if out >= output.Length - 1 { return false, b, out; }
      output[out] := DELIMITER;
      assert output[..out + 1] == output[..out] + [DELIMITER];
      out := out + 1;
    }
  }

  /** The passes; each one encodes at least one more code point, so they end. */
  method EncodeDeltas(cps: seq<nat>, output: array<byte>, out0: nat, b: nat, ghost all: seq<byte>)
    returns (ok: bool, out: nat)
    requires out0 < output.Length
    requires Passing(cps, INITIAL_N, 0, INITIAL_BIAS, b, b, INITIAL_N, 0, output[..out0], all)
    modifies output
    ensures ok ==> out < output.Length && output[..out] == all
    ensures !ok ==> |all| >= output.Length
  {
    var n: nat, delta: nat, bias: nat, h: nat := INITIAL_N, 0, INITIAL_BIAS, b;
    ghost var dn: nat, di: nat := INITIAL_N, 0;
    ok, out := true, out0;
    while h < |cps|
      invariant ok && out < output.Length
      invariant Passing(cps, n, delta, bias, h, b, dn, di, output[..out], all)
      decreases |cps| - h
    {
      PassStarts(cps, n, delta, bias, h, b, dn, di, output[..out], all);
      var m := FindNext(cps, n);
      if m - n > (UINT32_MAX - delta) / (h + 1) { ok := false; return; }
      ok, out, delta, bias, h, dn, di := ScanFor(cps, m, output, out, Jump(delta, n, m, h), bias, h, b, dn, di, all);
      if !ok { return; }
      PassEnds(cps, m, delta, bias, h, b, dn, di, output[..out], all);
      delta, n := delta + 1, m + 1;
    }
  }

  /** `idn_punycode_encode` after decoding: -2 exactly when the encoding does not fit. */
  method EncodePoints(cps: seq<nat>, output: array<byte>) returns (rc: int)
    requires Bounded(cps) && output.Length > 0
    modifies output
    ensures Encoded(cps, rc, output[..])
  {
    StartOfDeltas(cps);
    var ok, b: nat, out: nat := EncodePrefix(cps, output);
    if !ok { return -2; }
    ok, out := EncodeDeltas(cps, output, out, b, Encode(cps));
    if !ok { return -2; }
    output[out] := 0;
    assert output[..out + 1] == Encode(cps) + [0];
    rc := 0;
  }

  /** `idn_punycode_encode`: decode the input leniently, then encode it. */
  method PunycodeEncode(input: seq<byte>, output: array<byte>) returns (rc: int)
    modifies output
    ensures var cps := Utf8.Decode(input, Utf8.IDN_MAX_INPUT_LEN);
            if output.Length == 0 || cps.None? then rc == -1
            else Bounded(cps.value) && Encoded(cps.value, rc, output[..])
  {
    if output.Length == 0 { return -1; }
    var codePoints := new nat[Utf8.IDN_MAX_INPUT_LEN];
    var ok, count := Utf8.DecodeInto(input, codePoints);
    if !ok { return -1; }
    rc := EncodePoints(codePoints[..count], output);
  }
}
