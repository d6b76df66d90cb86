/** Encodings worked out by hand, for the encoder of src/network/idn.c and the label conversion around it. */
module PunycodeSamples {
  import opened Bytes
  import opened Punycode
  import opened PunycodeRoundTrip
  import opened Idn
  import opened IdnLaws
  import Utf8

  lemma EmittedSnoc(cps: seq<nat>, c: nat, n: nat, j: nat)
    ensures Emitted(cps + [c], n, j) == Emitted(cps, n, j) + (if Done(c, |cps|, n, j) then [c] else [])
  {
    assert (cps + [c])[..|cps|] == cps;
  }

  lemma MinSnoc(cps: seq<nat>, c: nat, n: nat)
    ensures MinAtLeast(cps + [c], n) == if n <= c < MinAtLeast(cps, n) then c else MinAtLeast(cps, n)
  {
    assert (cps + [c])[..|cps|] == cps;
  }

  // ---------------------------------------------------------------- a label of two umlauts

  lemma PairEmitted(cps: seq<nat>, a: nat, b: nat, n: nat, j: nat)
    requires cps == [a, b]
    ensures Emitted(cps, n, j) == (if Done(a, 0, n, j) then [a] else []) + (if Done(b, 1, n, j) then [b] else [])
  {
    EmittedSnoc([], a, n, j);
    EmittedSnoc([a], b, n, j);
    assert [] + [a] == [a] && [a] + [b] == cps;
  }

  lemma PairMin(cps: seq<nat>, a: nat, b: nat, n: nat)
    requires cps == [a, b] && a < b < NOT_FOUND
    ensures MinAtLeast(cps, n) == if n <= a then a else if n <= b then b else NOT_FOUND
  {
    var one := [a];
    MinSnoc([], a, n);
    assert [] + [a] == one && one + [b] == cps;
    assert MinAtLeast(one, n) == if n <= a then a else NOT_FOUND;
    MinSnoc(one, b, n);
  }

  lemma FirstDelta()
    ensures EncodeInt(100, 36, 72) == [52, 99, 97]
  {
    assert Digit(100, 1) == 30 && Carry(100, 1) == 2 && Digit(2, 1) == 2 && Carry(2, 1) == 0;
    assert EncodeInt(0, 108, 72) == [97];
    assert EncodeInt(2, 72, 72) == [99] + EncodeInt(0, 108, 72);
  }

  lemma SecondDelta()
    ensures EncodeInt(48, 36, 0) == [50, 99]
  {
    assert Digit(48, 26) == 28 && Carry(48, 26) == 2;
    assert EncodeInt(2, 72, 0) == [99];
  }

  lemma SecondPass(cps: seq<nat>)
    requires cps == [0xE4, 0xFC]
    ensures |Emitted(cps, 0xE5, 0)| == 1 && Passes(cps, 0xE5, 1, 0, 1, 0) == [50, 99]
  {
    PairEmitted(cps, 0xE4, 0xFC, 0xE5, 0);
    PairEmitted(cps, 0xE4, 0xFC, 0xFC, 0);
    PairEmitted(cps, 0xE4, 0xFC, 0xFC, 1);
    PairEmitted(cps, 0xE4, 0xFC, 0xFC, 2);
    PairEmitted(cps, 0xE4, 0xFC, 0xFD, 0);
    PairMin(cps, 0xE4, 0xFC, 0xE5);
    assert Jump(1, 0xE5, 0xFC, 1) == 47;
    SecondDelta();
    var bias := Adapt(48, 2, false);
    assert Scan(cps, 0xFC, 2, 0, bias, 2, 0) == [];
    assert Scan(cps, 0xFC, 1, 48, 0, 1, 0) == EncodeInt(48, BASE, 0) + Scan(cps, 0xFC, 2, 0, bias, 2, 0);
  }

  /** "äü" is encoded as "4ca2c". */
  lemma Umlauts(cps: seq<nat>)
    requires cps == [0xE4, 0xFC]
    ensures Encode(cps) == [52, 99, 97, 50, 99]
  {
    PairEmitted(cps, 0xE4, 0xFC, 128, 0);
    PairEmitted(cps, 0xE4, 0xFC, 0xE4, 0);
    PairEmitted(cps, 0xE4, 0xFC, 0xE4, 1);
    PairEmitted(cps, 0xE4, 0xFC, 0xE4, 2);
    PairMin(cps, 0xE4, 0xFC, 128);
    assert Jump(0, 128, 0xE4, 0) == 100;
    FirstDelta();
    assert Adapt(100, 1, true) == 0;
    SecondPass(cps);
    assert Scan(cps, 0xE4, 1, 0, 0, 1, 0) == Scan(cps, 0xE4, 2, 0, 0, 1, 0) == Passes(cps, 0xE5, 1, 0, 1, 0);
    assert Scan(cps, 0xE4, 0, 100, 72, 0, 0) == [52, 99, 97] + [50, 99];
    assert Basics(cps) == [];
  }

  // ---------------------------------------------------------------- a word with one umlaut

  const WORD: seq<nat> := [98, 0xFC, 99, 104, 101, 114]

  lemma WordEmitted(cps: seq<nat>, n: nat, j: nat)
    requires cps == WORD && n >= 128
    ensures Emitted(cps, n, j) == (if Done(0xFC, 1, n, j) then WORD else [98, 99, 104, 101, 114])
  {
    var a, b, c, d, e := [98], [98, 0xFC], [98, 0xFC, 99], [98, 0xFC, 99, 104], [98, 0xFC, 99, 104, 101];
    assert [] + [98] == a && a + [0xFC] == b && b + [99] == c && c + [104] == d && d + [101] == e && e + [114] == cps;
    EmittedSnoc([], 98, n, j);
    EmittedSnoc(a, 0xFC, n, j);
    EmittedSnoc(b, 99, n, j);
    EmittedSnoc(c, 104, n, j);
    EmittedSnoc(d, 101, n, j);
    EmittedSnoc(e, 114, n, j);
  }

  lemma WordMin(cps: seq<nat>)
    requires cps == WORD
    ensures MinAtLeast(cps, 128) == 0xFC
  {
    var a, b, c, d, e := [98], [98, 0xFC], [98, 0xFC, 99], [98, 0xFC, 99, 104], [98, 0xFC, 99, 104, 101];
    assert [] + [98] == a && a + [0xFC] == b && b + [99] == c && c + [104] == d && d + [101] == e && e + [114] == cps;
    MinSnoc([], 98, 128);
    MinSnoc(a, 0xFC, 128);
    MinSnoc(b, 99, 128);
    MinSnoc(c, 104, 128);
    MinSnoc(d, 101, 128);
    MinSnoc(e, 114, 128);
  }

  lemma WordDelta()
    ensures EncodeInt(745, 36, 72) == [107, 118, 97]
  {
    assert Digit(745, 1) == 10 && Carry(745, 1) == 21 && Digit(21, 1) == 21 && Carry(21, 1) == 0;
    assert EncodeInt(0, 108, 72) == [97];
    assert EncodeInt(21, 72, 72) == [118] + EncodeInt(0, 108, 72);
  }

  /** Once every code point is out, nothing more is written. */
  lemma {:induction false} NothingLeft(cps: seq<nat>, n: nat, j: nat, delta: nat, bias: nat, b: nat)
    requires InRange(cps) && n < NOT_FOUND && j <= |cps| && |Emitted(cps, n, j)| == |cps|
    ensures Scan(cps, n, j, delta, bias, |cps|, b) == []
    decreases |cps| - j
  {
    EmittedLength(cps, n, j);
    if j < |cps| {
      assert Done(cps[j], j, n, j);
      SkipPoint(cps, n, j);
      NothingLeft(cps, n, j + 1, if cps[j] < n then delta + 1 else delta, bias, b);
    } else {
      EndOfScan(cps, n);
    }
  }

  /** "bücher" is encoded as "bcher-kva". */
  lemma Word(cps: seq<nat>)
    requires cps == WORD
    ensures Encode(cps) == [98, 99, 104, 101, 114, 45, 107, 118, 97]
  {
    WordEmitted(cps, 128, 0);
    WordEmitted(cps, 0xFC, 0);
    WordEmitted(cps, 0xFC, 1);
    WordEmitted(cps, 0xFC, 2);
    WordMin(cps);
    assert Jump(0, 128, 0xFC, 5) == 744;
    WordDelta();
    var bias := Adapt(745, 6, true);
    NothingLeft(cps, 0xFC, 2, 0, bias, 5);
    assert Scan(cps, 0xFC, 1, 745, 72, 5, 5) == [107, 118, 97] + [];
    assert Scan(cps, 0xFC, 0, 744, 72, 5, 5) == [107, 118, 97];
    assert Basics(cps) == [98, 99, 104, 101, 114];
  }

  /** As a label in UTF-8, "bücher" becomes "xn--bcher-kva". */
  lemma WordLabel(part: seq<byte>)
    requires part == [98, 0xC3, 0xBC, 99, 104, 101, 114]
    ensures LabelToAscii(part, 2048) == Some([120, 110, 45, 45, 98, 99, 104, 101, 114, 45, 107, 118, 97])
  {
    WordInUtf8(part);
    Word(WORD);
    var e := Encode(WORD);
    assert e + [0] + [] == e + [0];
    CStringOf(e, []);
    assert part[1] >= 0x80 && !IsAscii(part);
    assert Ace(part) == Some(e);
    assert ACE_PREFIX + e == [120, 110, 45, 45, 98, 99, 104, 101, 114, 45, 107, 118, 97];
  }

  lemma WordInUtf8(part: seq<byte>)
    requires part == [98, 0xC3, 0xBC, 99, 104, 101, 114]
    ensures Utf8.Decode(part, 1024) == Some(WORD)
  {
    var rest := part[1..];
    assert rest == [0xC3, 0xBC, 99, 104, 101, 114] && rest[2..] == [99, 104, 101, 114];
    AsciiInUtf8([99, 104, 101, 114], 1022);
    assert Utf8.DecodeOne(rest) == Some((0xFC, 2)) && Utf8.DecodeOne(part) == Some((98, 1));
    assert Utf8.Decode(rest, 1023) == Some([0xFC] + [99, 104, 101, 114]);
    assert [98] + ([0xFC] + [99, 104, 101, 114]) == WORD;
  }

  lemma {:induction false} AsciiInUtf8(s: seq<byte>, room: nat)
    requires |s| <= room && forall i :: 0 <= i < |s| ==> s[i] < 0x80
    ensures Utf8.Decode(s, room) == Some(s)
  {
    if s != [] {
      AsciiInUtf8(s[1..], room - 1);
      assert s == [s[0]] + s[1..];
    }
  }

  /** And the host "bücher.de" becomes "xn--bcher-kva.de". */
  lemma WordHost(part: seq<byte>)
    requires part == [98, 0xC3, 0xBC, 99, 104, 101, 114]
    ensures HostToAscii(part + [46] + [100, 101])
         == Some([120, 110, 45, 45, 98, 99, 104, 101, 114, 45, 107, 118, 97] + [46] + [100, 101])
  {
    WordLabel(part);
    OneLabelHost(part);
    AsciiLabelInNumbers([100, 101]);
    HostByLabels(part, [100, 101]);
  }
}
