/** The decoder of RFC 3492, section 6.2, undoes the encoder, and exactly when. */
module PunycodeRoundTrip {
  import opened Bytes
  import opened Punycode
  import opened Rfc3492

  ghost predicate AllBasic(cps: seq<nat>) {
    forall k :: 0 <= k < |cps| ==> cps[k] < INITIAL_N
  }

  // ---------------------------------------------------------------- one delta

  /** The encoder adapts its bias as section 6.1 has it. */
  lemma SameBias(delta: nat, points: nat, first: bool)
    requires points > 0
    ensures Adapt(delta, points, first) == AdaptedBias(delta, points, first)
  {
    var d := if first then delta / DAMP else delta / 2;
    SameLoop(d + Quotient(d, points), 0);
  }

  lemma {:induction false} SameLoop(d: nat, k: nat)
    ensures AdaptLoop(d, k) == Divided(d, k)
    decreases d
  {
    if d > 455 { SameLoop(d / 35, k + 36); }
  }

  lemma SameThreshold(k: nat, bias: nat)
    ensures Threshold(k, bias) == ThresholdAt(k, bias)
  {
  }

  lemma DigitBack(d: nat)
    requires d < BASE
    ensures DigitValue(DigitChar(d)) == Some(d)
  {
  }

  /** One digit read: the value so far grows by the digit times its weight. */
  lemma ReadsDigit(d: nat, tail: seq<byte>, k: nat, bias: nat, i: nat, w: nat)
    requires d < BASE
    ensures DecodeInt([DigitChar(d)] + tail, k, bias, i, w) ==
            if d < Threshold(k, bias) then Some((i + Times(d, w), tail))
            else DecodeInt(tail, k + BASE, bias, i + Times(d, w), Times(w, BASE - Threshold(k, bias)))
  {
    DigitBack(d);
    SameThreshold(k, bias);
    var s := [DigitChar(d)] + tail;
    assert s[1..] == tail;
  }

  lemma WritesDigit(q: nat, k: nat, bias: nat, rest: seq<byte>)
    requires q >= Threshold(k, bias)
    ensures var t := Threshold(k, bias);
            EncodeInt(q, k, bias) + rest == [DigitChar(Digit(q, t))] + (EncodeInt(Carry(q, t), k + BASE, bias) + rest)
  {
  }

  /** Reading a written delta gives it back, scaled by the weight read so far, and leaves the rest. */
  lemma {:induction false} IntRoundTrip(q: nat, k: nat, bias: nat, i: nat, w: nat, rest: seq<byte>)
    ensures DecodeInt(EncodeInt(q, k, bias) + rest, k, bias, i, w) == Some((i + Times(q, w), rest))
    decreases q
  {
    var t := Threshold(k, bias);
    if q < t {
      ReadsDigit(q, rest, k, bias, i, w);
    } else {
      var d, r := Digit(q, t), Carry(q, t);
      WritesDigit(q, k, bias, rest);
      ReadsDigit(d, EncodeInt(r, k + BASE, bias) + rest, k, bias, i, w);
      IntRoundTrip(r, k + BASE, bias, i + Times(d, w), Times(w, BASE - t), rest);
      Weight(q, d, BASE - t, r, w);
    }
  }

  lemma Weight(q: nat, d: nat, base: nat, r: nat, w: nat)
    requires q == d + base * r
    ensures Times(d, w) + Times(r, Times(w, base)) == Times(q, w)
  {
  }

  /** The characters digits are written with: lower-case letters and decimal digits. */
  predicate IsDigitChar(c: byte) {
    97 <= c <= 122 || 48 <= c <= 57
  }

  lemma {:induction false} IntIsDigits(q: nat, k: nat, bias: nat)
    ensures EncodeInt(q, k, bias) != []
    ensures forall c :: c in EncodeInt(q, k, bias) ==> IsDigitChar(c)
    decreases q
  {
    var t := Threshold(k, bias);
    if q >= t {
      IntIsDigits(Carry(q, t), k + BASE, bias);
    }
  }

  // ---------------------------------------------------------------- encoder state against decoder state

  /**
   * The relation between the scan at (`n`, `j`) and a decoder that has read everything written so
   * far and stands at code point `dn`, insertion index `di`: the pending delta is the number of
   * decoder states between the two.
   */
  ghost predicate InStep(cps: seq<nat>, n: nat, j: nat, delta: nat, h: nat, b: nat, dn: nat, di: nat) {
    && j <= |cps|
    && h == |Emitted(cps, n, j)| && b <= h
    && dn <= n
    && delta + di == (n - dn) * (h + 1) + Position(cps, n, j)
    && (di == 0 <==> h == b)
  }

  lemma SmallMultiple(x: int, count: nat)
    requires 0 < count + x * count < 2 * count
    ensures x == 0
  {
    assert (1 + x) * count == count + x * count;
    assert (1 - x) * count == count - x * count;
  }

  /** A reader that has consumed the next delta lands on (n, position) and nowhere else. */
  lemma LandsOn(dn: nat, n: nat, count: nat, at: nat, i: nat)
    requires dn <= n && at < count
    requires i == (n - dn) * count + at
    ensures dn + Quotient(i, count) == n && Remainder(i, count) == at
  {
    var q := n - dn;
    assert i == i / count * count + i % count;
    assert (i / count - q) * count == at - i % count;
    SmallMultiple(i / count - q, count);
  }

  lemma JumpKeepsStep(cps: seq<nat>, n: nat, m: nat, delta: nat, h: nat, b: nat, dn: nat, di: nat)
    requires n <= m && InStep(cps, n, 0, delta, h, b, dn, di) && Emitted(cps, m, 0) == Emitted(cps, n, 0)
    ensures InStep(cps, m, 0, Jump(delta, n, m, h), h, b, dn, di)
  {
    assert cps[..0] == [];
    assert (m - dn) * (h + 1) == (n - dn) * (h + 1) + (m - n) * (h + 1);
  }

  lemma EndKeepsStep(cps: seq<nat>, n: nat, delta: nat, h: nat, b: nat, dn: nat, di: nat)
    requires InStep(cps, n, |cps|, delta, h, b, dn, di)
    ensures InStep(cps, n + 1, 0, delta + 1, h, b, dn, di)
  {
    EndOfScan(cps, n);
    assert cps[..|cps|] == cps && cps[..0] == [];
    assert (n + 1 - dn) * (h + 1) == (n - dn) * (h + 1) + (h + 1);
  }

  lemma SkipKeepsStep(cps: seq<nat>, n: nat, j: nat, delta: nat, h: nat, b: nat, dn: nat, di: nat)
    requires j < |cps| && cps[j] != n && InStep(cps, n, j, delta, h, b, dn, di)
    ensures InStep(cps, n, j + 1, if cps[j] < n then delta + 1 else delta, h, b, dn, di)
  {
    SkipPoint(cps, n, j);
    PositionStep(cps, n, j);
  }

  lemma InsertKeepsStep(cps: seq<nat>, n: nat, j: nat, delta: nat, h: nat, b: nat, dn: nat, di: nat)
    requires j < |cps| && cps[j] == n && InStep(cps, n, j, delta, h, b, dn, di)
    ensures InStep(cps, n, j + 1, 0, h + 1, b, n, Position(cps, n, j) + 1)
  {
    InsertPoint(cps, n, j);
    PositionStep(cps, n, j);
  }

  // ---------------------------------------------------------------- the delta section

  lemma {:induction false} PassesRoundTrip(cps: seq<nat>, n: nat, delta: nat, bias: nat, h: nat, b: nat,
                                            dn: nat, di: nat)
    requires InRange(cps) && InStep(cps, n, 0, delta, h, b, dn, di)
    ensures DecodeDeltas(Passes(cps, n, delta, bias, h, b), Cursor(dn, di, bias, Emitted(cps, n, 0))) == Some(cps)
    decreases NOT_FOUND + 1 - n, |cps| + 1
  {
    if h >= |cps| {
      EmittedLength(cps, n, 0);
    } else {
      NextCodePoint(cps, n);
      var m := MinAtLeast(cps, n);
      JumpKeepsStep(cps, n, m, delta, h, b, dn, di);
      ScanRoundTrip(cps, m, 0, Jump(delta, n, m, h), bias, h, b, dn, di);
    }
  }

  lemma {:induction false} ScanRoundTrip(cps: seq<nat>, n: nat, j: nat, delta: nat, bias: nat, h: nat, b: nat,
                                          dn: nat, di: nat)
    requires InRange(cps) && n < NOT_FOUND && InStep(cps, n, j, delta, h, b, dn, di)
    ensures DecodeDeltas(Scan(cps, n, j, delta, bias, h, b), Cursor(dn, di, bias, Emitted(cps, n, j))) == Some(cps)
    decreases NOT_FOUND + 1 - n, |cps| - j
  {
    if j == |cps| {
      EndOfScan(cps, n);
      EndKeepsStep(cps, n, delta, h, b, dn, di);
      PassesRoundTrip(cps, n + 1, delta + 1, bias, h, b, dn, di);
    } else if cps[j] == n {
      InsertKeepsStep(cps, n, j, delta, h, b, dn, di);
      ScanRoundTrip(cps, n, j + 1, 0, Adapt(delta, h + 1, h == b), h + 1, b, n, Position(cps, n, j) + 1);
      InsertionReadBack(cps, n, j, delta, bias, h, b, dn, di);
    } else {
      SkipPoint(cps, n, j);
      SkipKeepsStep(cps, n, j, delta, h, b, dn, di);
      var delta' := if cps[j] < n then delta + 1 else delta;
      ScanRoundTrip(cps, n, j + 1, delta', bias, h, b, dn, di);
      assert Scan(cps, n, j, delta, bias, h, b) == Scan(cps, n, j + 1, delta', bias, h, b);
    }
  }

  lemma ScanWrites(cps: seq<nat>, n: nat, j: nat, delta: nat, bias: nat, h: nat, b: nat)
    requires InRange(cps) && n < NOT_FOUND && j < |cps| && cps[j] == n && h == |Emitted(cps, n, j)|
    ensures |Emitted(cps, n, j + 1)| == h + 1
    ensures Scan(cps, n, j, delta, bias, h, b)
         == EncodeInt(delta, BASE, bias) + Scan(cps, n, j + 1, 0, Adapt(delta, h + 1, h == b), h + 1, b)
  {
    InsertPoint(cps, n, j);
  }

  lemma InsertionReadBack(cps: seq<nat>, n: nat, j: nat, delta: nat, bias: nat, h: nat, b: nat, dn: nat, di: nat)
    requires InRange(cps) && n < NOT_FOUND && InStep(cps, n, j, delta, h, b, dn, di)
    requires j < |cps| && cps[j] == n && |Emitted(cps, n, j + 1)| == h + 1
    ensures var bias' := Adapt(delta, h + 1, h == b);
            DecodeDeltas(Scan(cps, n, j, delta, bias, h, b), Cursor(dn, di, bias, Emitted(cps, n, j))) ==
            DecodeDeltas(Scan(cps, n, j + 1, 0, bias', h + 1, b),
                         Cursor(n, Position(cps, n, j) + 1, bias', Emitted(cps, n, j + 1)))
  {
    var c := Cursor(dn, di, bias, Emitted(cps, n, j));
    var rest := Scan(cps, n, j + 1, 0, Adapt(delta, h + 1, h == b), h + 1, b);
    ScanWrites(cps, n, j, delta, bias, h, b);
    InsertPoint(cps, n, j);
    ReadsDelta(delta, rest, c);
    TurnLands(c, delta, n, Position(cps, n, j), h == b);
  }

  /** The insertion lands where the encoder found the code point. */
  lemma TurnLands(c: Cursor, delta: nat, n: nat, p: nat, first: bool)
    requires c.n <= n && p <= |c.out| && (c.i == 0 <==> first)
    requires delta + c.i == (n - c.n) * (|c.out| + 1) + p
    ensures Turn(c, c.i + delta)
         == Cursor(n, p + 1, Adapt(delta, |c.out| + 1, first), c.out[..p] + [n] + c.out[p..])
  {
    LandsOn(c.n, n, |c.out| + 1, p, c.i + delta);
    SameBias(delta, |c.out| + 1, first);
  }

  /** One turn of the decoder's main loop on one written delta. */
  lemma ReadsDelta(delta: nat, rest: seq<byte>, c: Cursor)
    ensures DecodeDeltas(EncodeInt(delta, BASE, c.bias) + rest, c) == DecodeDeltas(rest, Turn(c, c.i + delta))
  {
    assert EncodeInt(delta, BASE, c.bias) + rest != [] by { IntIsDigits(delta, BASE, c.bias); }
    IntRoundTrip(delta, BASE, c.bias, c.i, 1, rest);
    assert Times(delta, 1) == delta;
  }

  lemma {:induction false} PassesAreDigits(cps: seq<nat>, n: nat, delta: nat, bias: nat, h: nat, b: nat)
    requires InRange(cps) && h == |Emitted(cps, n, 0)|
    ensures forall c :: c in Passes(cps, n, delta, bias, h, b) ==> IsDigitChar(c)
    ensures h < |cps| ==> Passes(cps, n, delta, bias, h, b) != []
    decreases NOT_FOUND + 1 - n, |cps| + 1
  {
    if h < |cps| {
      NextCodePoint(cps, n);
      var m := MinAtLeast(cps, n);
      ScanIsDigits(cps, m, 0, Jump(delta, n, m, h), bias, h, b);
    }
  }

  lemma {:induction false} ScanIsDigits(cps: seq<nat>, n: nat, j: nat, delta: nat, bias: nat, h: nat, b: nat)
    requires InRange(cps) && n < NOT_FOUND && j <= |cps| && h == |Emitted(cps, n, j)|
    ensures forall c :: c in Scan(cps, n, j, delta, bias, h, b) ==> IsDigitChar(c)
    ensures h < |cps| ==> Scan(cps, n, j, delta, bias, h, b) != []
    decreases NOT_FOUND + 1 - n, |cps| - j
  {
    if j == |cps| {
      EndOfScan(cps, n);
      PassesAreDigits(cps, n + 1, delta + 1, bias, h, b);
    } else if cps[j] == n {
      InsertPoint(cps, n, j);
      IntIsDigits(delta, BASE, bias);
      ScanIsDigits(cps, n, j + 1, 0, Adapt(delta, h + 1, h == b), h + 1, b);
    } else {
      SkipPoint(cps, n, j);
      ScanIsDigits(cps, n, j + 1, if cps[j] < n then delta + 1 else delta, bias, h, b);
    }
  }

  // ---------------------------------------------------------------- the whole string

  /** The split at the last delimiter finds the basic part again. */
  lemma SplitsAtDelimiter(basic: seq<byte>, deltas: seq<byte>)
    requires DELIMITER !in deltas
    ensures basic != [] ==> LastDelimiter(basic + [DELIMITER] + deltas) == |basic|
    ensures LastDelimiter(deltas) == -1
  {
    if basic != [] {
      var s := basic + [DELIMITER] + deltas;
      var d := LastDelimiter(s);
      assert s[|basic|] == DELIMITER;
      assert forall k :: |basic| < k < |s| ==> s[k] in deltas;
    }
  }

  lemma BasicsAreBasic(cps: seq<nat>)
    ensures AllBasic(cps) <==> |Basics(cps)| == |cps|
    ensures AllBasic(cps) ==> Basics(cps) == cps
  {
    EmittedLength(cps, INITIAL_N, 0);
    if !AllBasic(cps) {
      var k :| 0 <= k < |cps| && cps[k] >= INITIAL_N;
      assert !Done(cps[k], k, INITIAL_N, 0);
    }
  }

  /** Any input with a non-basic code point survives encoding followed by decoding. */
  lemma RoundTrip(cps: seq<nat>)
    requires InRange(cps) && !AllBasic(cps)
    ensures Decode(Encode(cps)) == Some(cps)
  {
    BasicsAreBasic(cps);
    EmittedLength(cps, INITIAL_N, 0);
    var basic := Basics(cps);
    var b := |basic|;
    var deltas := Passes(cps, INITIAL_N, 0, INITIAL_BIAS, b, b);
    PassesAreDigits(cps, INITIAL_N, 0, INITIAL_BIAS, b, b);
    SplitsAtDelimiter(basic, deltas);
    assert cps[..0] == [];
    PassesRoundTrip(cps, INITIAL_N, 0, INITIAL_BIAS, b, b, INITIAL_N, 0);
    var s := Encode(cps);
    if b == 0 {
      assert s == deltas;
    } else {
      assert s == basic + [DELIMITER] + deltas;
      assert s[..b] == basic && s[b + 1..] == deltas;
    }
  }

  /** Deltas only ever insert code points at or above 0x80. */
  lemma {:induction false} DeltasInsertNonBasic(s: seq<byte>, c: Cursor)
    requires c.n >= INITIAL_N && DecodeDeltas(s, c).Some?
    ensures s != [] || !AllBasic(c.out) ==> !AllBasic(DecodeDeltas(s, c).value)
    decreases |s|
  {
    if s != [] {
      var read := DecodeInt(s, BASE, c.bias, c.i, 1).value;
      TurnInserts(c, read.0);
      DeltasInsertNonBasic(read.1, Turn(c, read.0));
    }
  }

  lemma TurnInserts(c: Cursor, i': nat)
    requires i' >= c.i && c.n >= INITIAL_N
    ensures Turn(c, i').n >= INITIAL_N && !AllBasic(Turn(c, i').out)
  {
    var at := Mod(i', |c.out| + 1);
    assert Turn(c, i').out[at] == Turn(c, i').n;
  }

  lemma BasicsEncodeToThemselves(cps: seq<nat>)
    requires AllBasic(cps)
    ensures InRange(cps) && Encode(cps) == cps
  {
    BasicsAreBasic(cps);
    EmittedLength(cps, INITIAL_N, 0);
  }

  /** No string whose code points are all basic decodes to itself, except the empty one. */
  lemma NothingBasicIsItsOwnDecoding(s: seq<byte>)
    requires s != [] && AllBasic(s)
    ensures Decode(s) != Some(s)
  {
    var d := LastDelimiter(s);
    if d > 0 {
      DeltasChangeBasics(s[d + 1..], s[..d], s);
    } else {
      DeltasChangeBasics(s, [], s);
    }
  }

  lemma DeltasChangeBasics(deltas: seq<byte>, basic: seq<byte>, s: seq<byte>)
    requires AllBasic(s) && (deltas == [] ==> |basic| < |s|)
    ensures DecodeDeltas(deltas, Cursor(INITIAL_N, 0, INITIAL_BIAS, basic)) != Some(s)
  {
    var start := Cursor(INITIAL_N, 0, INITIAL_BIAS, basic);
    if deltas != [] && DecodeDeltas(deltas, start).Some? {
      DeltasInsertNonBasic(deltas, start);
    }
  }

  /** The encoder drops the delimiter after an all-basic input, so only the empty one of those survives. */
  lemma BasicOnlyIsLost(cps: seq<nat>)
    requires AllBasic(cps) && cps != []
    ensures InRange(cps) && Encode(cps) == cps && Decode(Encode(cps)) != Some(cps)
  {
    BasicsEncodeToThemselves(cps);
    NothingBasicIsItsOwnDecoding(Encode(cps));
  }

  /** Exactly when decoding undoes encoding. */
  lemma RoundTripIff(cps: seq<nat>)
    requires InRange(cps)
    ensures Decode(Encode(cps)) == Some(cps) <==> cps == [] || exists k :: 0 <= k < |cps| && cps[k] >= 128
  {
    if cps == [] {
      EmittedLength(cps, INITIAL_N, 0);
    } else if AllBasic(cps) {
      BasicOnlyIsLost(cps);
    } else {
      RoundTrip(cps);
    }
  }

  /** Every octet written is a basic code point of the input, the delimiter or a digit. */
  lemma EncodeAlphabet(cps: seq<nat>)
    requires InRange(cps)
    ensures forall c :: c in Encode(cps) ==>
              (c in cps && c < 128) || c == 45 || 97 <= c <= 122 || 48 <= c <= 57
  {
    EmittedLength(cps, INITIAL_N, 0);
    var b := |Basics(cps)|;
    PassesAreDigits(cps, INITIAL_N, 0, INITIAL_BIAS, b, b);
    BasicsOccur(cps);
  }

  lemma {:induction false} BasicsOccur(cps: seq<nat>)
    ensures forall c :: c in Basics(cps) ==> c in cps && c < INITIAL_N
  {
    if cps != [] { BasicsOccur(cps[..|cps| - 1]); }
  }
}
