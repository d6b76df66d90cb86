/** The Internet checksum (RFC 1071) as src/ping/ping.c:46-59 computes it. */
module Checksum {
  import opened Bytes

  type word = x: int | 0 <= x < 0x1_0000

  function Word(low: byte, high: byte): word {
    var l: int, h: int := low, high;
    l + 256 * h
  }

  /** The 16-bit words of a packet as loaded on a little-endian host; an odd last octet stands alone. */
  function Words(packet: seq<byte>): (ws: seq<word>) {
    if packet == [] then []
    else if |packet| == 1 then [packet[0]]
    else [Word(packet[0], packet[1])] + Words(packet[2..])
  }

  function Sum(ws: seq<word>): nat {
    if ws == [] then 0 else ws[0] + Sum(ws[1..])
  }

  /** One's-complement folding of the carries. */
  function Fold(sum: nat): (r: word) {
    if sum < 0x1_0000 then sum else Fold(sum % 0x1_0000 + sum / 0x1_0000)
  }

  function Checksum(ws: seq<word>): word {
    0xFFFF - Fold(Sum(ws))
  }

  /** Folding keeps the sum modulo 65535, and keeps it from becoming zero. */
  lemma {:induction false} FoldKeeps(sum: nat)
    ensures Fold(sum) % 0xFFFF == sum % 0xFFFF
    ensures Fold(sum) == 0 <==> sum == 0
  {
    if sum >= 0x1_0000 {
      var q := sum / 0x1_0000;
      var next := sum % 0x1_0000 + q;
      FoldKeeps(next);
      assert sum == next + q * 0xFFFF;
      AddMultiple(next, q);
    }
  }

  lemma {:induction false} AddMultiple(x: nat, q: nat)
    ensures (x + q * 0xFFFF) % 0xFFFF == x % 0xFFFF
  {
    if q > 0 {
      AddMultiple(x, q - 1);
      var y := x + (q - 1) * 0xFFFF;
      assert (y + 0xFFFF) % 0xFFFF == y % 0xFFFF;
    }
  }

  /** The word loop and the folding loop; up to 131072 octets the sum fits 32 bits. */
  method ComputeChecksum(packet: seq<byte>) returns (r: word)
    ensures r == Checksum(Words(packet))
  {
    var rest, sum: nat := packet, 0;
    while |rest| > 1
      invariant sum + Sum(Words(rest)) == Sum(Words(packet))
      decreases |rest|
    {
      sum := sum + Word(rest[0], rest[1]);
      rest := rest[2..];
    }
    if |rest| == 1 {
      sum := sum + rest[0];
      assert Words(rest) == [rest[0]] && Sum([rest[0]]) == rest[0] + Sum([]);
    }
    while sum >= 0x1_0000
      invariant Fold(sum) == Fold(Sum(Words(packet)))
      decreases sum
    {
      sum := sum % 0x1_0000 + sum / 0x1_0000;
    }
    r := 0xFFFF - sum;
  }

  lemma {:induction false} WordCount(packet: seq<byte>)
    ensures |Words(packet)| == (|packet| + 1) / 2
  {
    if |packet| > 1 { WordCount(packet[2..]); }
  }

  lemma {:induction false} SumBound(ws: seq<word>)
    ensures Sum(ws) <= |ws| * 0xFFFF
  {
    if ws != [] { SumBound(ws[1..]); }
  }

  lemma SumFits(packet: seq<byte>)
    requires |packet| <= 131072
    ensures Sum(Words(packet)) < 0x1_0000_0000
  {
    WordCount(packet);
    SumBound(Words(packet));
  }

  lemma {:induction false} SumUpdate(ws: seq<word>, k: nat, w: word)
    requires k < |ws|
    ensures Sum(ws[k := w]) == Sum(ws) - ws[k] + w
  {
    var us := ws[k := w];
    if k == 0 {
      assert us[1..] == ws[1..];
    } else {
      SumUpdate(ws[1..], k - 1, w);
      assert us[1..] == ws[1..][k - 1 := w];
    }
  }

  /** A receiver's verdict: the checksum over everything is zero exactly on a positive multiple of 65535. */
  lemma VerifiesIff(ws: seq<word>)
    ensures Checksum(ws) == 0 <==> Sum(ws) > 0 && Sum(ws) % 0xFFFF == 0
  {
    FoldKeeps(Sum(ws));
  }

  lemma FilledInWords(ws: seq<word>, k: nat)
    requires k < |ws| && ws[k] == 0
    ensures Checksum(ws[k := Checksum(ws)]) == 0
  {
    var sum, f := Sum(ws), Fold(Sum(ws));
    FoldKeeps(sum);
    SumUpdate(ws, k, Checksum(ws));
    VerifiesIff(ws[k := Checksum(ws)]);
    Complement(sum, f);
  }

  lemma Complement(sum: nat, f: word)
    requires f % 0xFFFF == sum % 0xFFFF && (f == 0 <==> sum == 0)
    ensures sum + (0xFFFF - f) > 0 && (sum + (0xFFFF - f)) % 0xFFFF == 0
  {
    var a, b := sum / 0xFFFF, f / 0xFFFF;
    assert sum - f == (a - b) * 0xFFFF;
    var q := a - b + 1;
    assert q >= 0 by {
      if f == 0xFFFF { assert sum % 0xFFFF == 0 && sum > 0; }
    }
    AddMultiple(0, q);
  }

  lemma ChangedWord(ws: seq<word>, k: nat, w: word)
    requires k < |ws| && Checksum(ws) == 0 && w != ws[k]
    ensures Checksum(ws[k := w]) == 0 <==> {w, ws[k]} == {0, 0xFFFF} && Sum(ws[k := w]) > 0
  {
    SumUpdate(ws, k, w);
    VerifiesIff(ws);
    VerifiesIff(ws[k := w]);
    var a, b := Sum(ws) / 0xFFFF, Sum(ws[k := w]) / 0xFFFF;
    if Checksum(ws[k := w]) == 0 {
      assert w - ws[k] == (b - a) * 0xFFFF;
    } else if {w, ws[k]} == {0, 0xFFFF} {
      assert w in {w, ws[k]} && ws[k] in {w, ws[k]};
      assert w == 0 || w == 0xFFFF;
      assert ws[k] == 0 || ws[k] == 0xFFFF;
      if w == 0 { AddMultiple(Sum(ws[k := w]), 1); } else { AddMultiple(Sum(ws), 1); }
    }
  }

  // ---------------------------------------------------------------- packets of octets

  /** The packet with a 16-bit field at an even offset stored in place, as a little-endian host does. */
  function Store(packet: seq<byte>, at: nat, w: word): (r: seq<byte>)
    requires at + 1 < |packet|
    ensures |r| == |packet|
  {
    packet[at := w % 256][at + 1 := w / 256]
  }

  function Load(packet: seq<byte>, at: nat): word
    requires at + 1 < |packet|
  {
    Word(packet[at], packet[at + 1])
  }

  /** Storing a field changes one word of the sum and no other. */
  lemma {:induction false} StoreIsOneWord(packet: seq<byte>, k: nat, w: word)
    requires 2 * k + 1 < |packet|
    ensures k < |Words(packet)| && Words(packet)[k] == Load(packet, 2 * k)
    ensures Words(Store(packet, 2 * k, w)) == Words(packet)[k := w]
  {
    var p := Store(packet, 2 * k, w);
    if k == 0 {
      assert p[2..] == packet[2..];
    } else {
      StoreIsOneWord(packet[2..], k - 1, w);
      assert p[2..] == Store(packet[2..], 2 * (k - 1), w);
    }
  }

  /** A packet verifies once the checksum taken with its field zeroed is stored there. */
  lemma FilledInVerifies(packet: seq<byte>, k: nat)
    requires 2 * k + 1 < |packet| && packet[2 * k] == packet[2 * k + 1] == 0
    ensures Checksum(Words(Store(packet, 2 * k, Checksum(Words(packet))))) == 0
  {
    StoreIsOneWord(packet, k, Checksum(Words(packet)));
    FilledInWords(Words(packet), k);
  }

  /**
   * Changing one 16-bit field of a packet that verifies is noticed, unless the change swaps 0x0000
   * and 0xFFFF and leaves something else than zeros.
   */
  lemma DetectsOneWord(packet: seq<byte>, k: nat, w: word)
    requires 2 * k + 1 < |packet| && Checksum(Words(packet)) == 0 && w != Load(packet, 2 * k)
    ensures Checksum(Words(Store(packet, 2 * k, w))) == 0
       <==> {w, Load(packet, 2 * k)} == {0, 0xFFFF} && Sum(Words(Store(packet, 2 * k, w))) > 0
  {
    StoreIsOneWord(packet, k, w);
    ChangedWord(Words(packet), k, w);
  }

  /** How an echo request gets its checksum: the field is zeroed, the sum taken, the result stored. */
  method FillIn(packet: array<byte>, k: nat)
    requires 2 * k + 1 < packet.Length
    modifies packet
    ensures var zeroed := old(Store(packet[..], 2 * k, 0));
            packet[..] == Store(zeroed, 2 * k, Checksum(Words(zeroed)))
    ensures Checksum(Words(packet[..])) == 0
  {
    var at := 2 * k;
    packet[at], packet[at + 1] := 0, 0;
    var zeroed := packet[..];
    assert zeroed == old(Store(packet[..], at, 0));
    var sum := ComputeChecksum(zeroed);
    packet[at], packet[at + 1] := sum % 256, sum / 256;
    assert packet[..] == Store(zeroed, at, sum);
    FilledInVerifies(zeroed, k);
  }

  /** The octets of the example in section 3 of RFC 1071: its sum 0xddf2, with the octets of each word swapped. */
  lemma Example()
    ensures Checksum(Words([0x00, 0x01, 0xf2, 0x03, 0xf4, 0xf5, 0xf6, 0xf7])) == 0xFFFF - 0xf2dd
  {
    var p: seq<byte> := [0x00, 0x01, 0xf2, 0x03, 0xf4, 0xf5, 0xf6, 0xf7];
    var a: seq<word>, b: seq<word>, c: seq<word>, d: seq<word> := [0xf7f6], [0xf5f4, 0xf7f6], [0x03f2, 0xf5f4, 0xf7f6],
      [0x0100, 0x03f2, 0xf5f4, 0xf7f6];
    assert p[2..] == [0xf2, 0x03, 0xf4, 0xf5, 0xf6, 0xf7] && p[2..][2..] == [0xf4, 0xf5, 0xf6, 0xf7];
    assert Words([0xf6, 0xf7]) == a + [] && Words([0xf4, 0xf5, 0xf6, 0xf7]) == [0xf5f4] + a == b;
    assert Words(p[2..]) == [0x03f2] + b == c && Words(p) == [0x0100] + c == d;
    assert a[1..] == [] && b[1..] == a && c[1..] == b && d[1..] == c;
    assert Sum(a) == 0xf7f6 && Sum(b) == 0x1edea && Sum(c) == 0x1f1dc && Sum(d) == 0x1f2dc;
    assert Fold(0x1f2dc) == Fold(0xf2dd);
  }

  /** An odd last octet counts as the low half of a word. */
  lemma OddOctet(packet: seq<byte>, last: byte)
    requires |packet| % 2 == 0
    ensures Sum(Words(packet + [last])) == Sum(Words(packet)) + last
    decreases |packet|
  {
    if packet == [] {
      assert packet + [last] == [last] && Words([last]) == [last] + [];
    } else {
      assert (packet + [last])[2..] == packet[2..] + [last];
      OddOctet(packet[2..], last);
    }
  }
}
