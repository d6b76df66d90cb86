/** `ws_base64_encode` (src/network/websocket.c:59-72) against a decoder for RFC 4648, section 4. */
module Base64 {
  import opened Bytes

  const PAD: byte := 61

  function Letter(x: nat): byte
    requires x < 64
  {
    if x < 26 then 65 + x
    else if x < 52 then 97 + (x - 26)
    else if x < 62 then 48 + (x - 52)
    else if x == 62 then 43
    else 47
  }

  function LetterValue(c: byte): Option<nat> {
    if 65 <= c <= 90 then Some(c - 65)
    else if 97 <= c <= 122 then Some(c - 97 + 26)
    else if 48 <= c <= 57 then Some(c - 48 + 52)
    else if c == 43 then Some(62)
    else if c == 47 then Some(63)
    else None
  }

  /** Three octets, the missing ones zero, as a 24-bit number. */
  function Group(data: seq<byte>): (n: nat)
    requires data != []
    ensures n < 0x100_0000
  {
    Pack(data[0], if |data| > 1 then data[1] else 0, if |data| > 2 then data[2] else 0)
  }

  function Pack(a: byte, b: byte, c: byte): (n: nat)
    ensures n < 0x100_0000
  {
    var x: int, y: int, z: int := a, b, c;
    x * 65536 + y * 256 + z
  }

  /** Four characters for up to three octets, padded where octets are missing. */
  function Quad(data: seq<byte>): seq<byte>
    requires data != []
  {
    var n := Group(data);
    [Letter(n / 262144), Letter(n / 4096 % 64),
     if |data| > 1 then Letter(n / 64 % 64) else PAD,
     if |data| > 2 then Letter(n % 64) else PAD]
  }

  /** The octets after the first group. */
  function Rest(data: seq<byte>): seq<byte> {
    if |data| > 3 then data[3..] else []
  }

  function Encode(data: seq<byte>): seq<byte>
    decreases |data|
  {
    if data == [] then [] else Quad(data) + Encode(Rest(data))
  }

  /** The octets of a 24-bit number. */
  function Ungroup(n: nat): (r: seq<byte>)
    ensures |r| == 3
  {
    [n / 65536 % 256, n / 256 % 256, n % 256]
  }

  /** The octets of a quad; padding is allowed only at the end and over zero bits. */
  function DecodeQuad(q: seq<byte>): Option<seq<byte>>
    requires |q| == 4
  {
    var a, b := LetterValue(q[0]), LetterValue(q[1]);
    var c := if q[2] == PAD && q[3] == PAD then Some(0) else LetterValue(q[2]);
    var d := if q[3] == PAD then Some(0) else LetterValue(q[3]);
    if a.None? || b.None? || c.None? || d.None? then None
    else
      var bytes := Ungroup(a.value * 262144 + b.value * 4096 + c.value * 64 + d.value);
      var count := if q[2] == PAD then 1 else if q[3] == PAD then 2 else 3;
      if (count < 3 && bytes[2] != 0) || (count < 2 && bytes[1] != 0) then None else Some(bytes[..count])
  }

  function Decode(s: seq<byte>): Option<seq<byte>> {
    if s == [] then Some([])
    else if |s| < 4 then None
    else
      match DecodeQuad(s[..4])
      case None => None
      case Some(bytes) =>
        if |bytes| < 3 && |s| > 4 then None
        else
          match Decode(s[4..])
          case None => None
          case Some(rest) => Some(bytes + rest)
  }

  lemma LetterBack(x: nat)
    requires x < 64
    ensures LetterValue(Letter(x)) == Some(x) && Letter(x) != PAD
  {
  }

  lemma Sextets(n: nat)
    requires n < 0x100_0000
    ensures n / 262144 < 64
    ensures n == n / 262144 * 262144 + n / 4096 % 64 * 4096 + n / 64 % 64 * 64 + n % 64
  {
    var a := n / 64;
    var b := a / 64;
    assert b == n / 4096 && b / 64 == n / 262144;
  }

  lemma Octets(a: byte, b: byte, c: byte)
    ensures Ungroup(Pack(a, b, c)) == [a, b, c]
    ensures c == 0 ==> Pack(a, b, c) % 64 == 0
    ensures b == c == 0 ==> Pack(a, b, c) / 64 % 64 == 0
  {
    var x: int, y: int, z: int := a, b, c;
    var n := Pack(a, b, c);
    assert n / 256 == x * 256 + y && n / 65536 == x;
    if z == 0 { assert n == (x * 1024 + y * 4) * 64; }
    if y == z == 0 { assert n / 64 == x * 16 * 64; }
  }

  lemma QuadRoundTrip(data: seq<byte>)
    requires 0 < |data| <= 3
    ensures DecodeQuad(Quad(data)) == Some(data)
  {
    var n := Group(data);
    Sextets(n);
    Octets(data[0], if |data| > 1 then data[1] else 0, if |data| > 2 then data[2] else 0);
    LetterBack(n / 262144);
    LetterBack(n / 4096 % 64);
    LetterBack(n / 64 % 64);
    LetterBack(n % 64);
    assert Ungroup(n)[..|data|] == data;
  }

  lemma DecodeStep(head: seq<byte>, tail: seq<byte>)
    requires 0 < |head| <= 3 && (tail != [] ==> |head| == 3)
    ensures Encode(head + tail) == Quad(head) + Encode(tail)
    ensures Decode(Encode(tail)) == Some(tail) ==> Decode(Quad(head) + Encode(tail)) == Some(head + tail)
  {
    var data := head + tail;
    assert Quad(data) == Quad(head);
    assert Rest(data) == tail;
    var s := Quad(head) + Encode(tail);
    assert s[..4] == Quad(head) && s[4..] == Encode(tail);
    QuadRoundTrip(head);
  }

  lemma {:induction false} RoundTrip(data: seq<byte>)
    ensures Decode(Encode(data)) == Some(data)
    decreases |data|
  {
    if data != [] {
      var head := if |data| > 3 then data[..3] else data;
      assert data == head + Rest(data);
      RoundTrip(Rest(data));
      DecodeStep(head, Rest(data));
    }
  }

  lemma {:induction false} EncodeLength(data: seq<byte>)
    ensures |Encode(data)| == (|data| + 2) / 3 * 4
    decreases |data|
  {
    if data != [] { EncodeLength(Rest(data)); }
  }

  /** The source's loop: three octets in, four characters out, then the terminator. */
  method EncodeInto(data: seq<byte>, out: array<byte>) returns (j: nat)
    requires out.Length >= (|data| + 2) / 3 * 4 + 1
    modifies out
    ensures j < out.Length && out[..j + 1] == Encode(data) + [0]
  {
    var rest := data;
    j := 0;
    EncodeLength(data);
    ghost var all := Encode(data);
    while rest != []
      invariant j <= |all| && out[..j] + Encode(rest) == all
      decreases |rest|
    {
      j := EncodeGroup(rest, out, j, all);
      rest := Rest(rest);
    }
    out[j] := 0;
    assert out[..j + 1] == out[..j] + [0];
  }

  method EncodeGroup(rest: seq<byte>, out: array<byte>, at: nat, ghost all: seq<byte>) returns (j: nat)
    requires rest != [] && at <= |all| < out.Length && out[..at] + Encode(rest) == all
    modifies out
    ensures j <= |all| && out[..j] + Encode(Rest(rest)) == all
  {
    var quad := Quad(rest);
    assert out[..at] + (quad + Encode(Rest(rest))) == out[..at] + quad + Encode(Rest(rest));
    CopyTo(out, at, quad);
    j := at + 4;
  }

  /** Samples of section 10 of RFC 4648: "foobar", "fooba" and "foob". */
  lemma Samples()
    ensures Encode([102, 111, 111] + [98, 97, 114]) == [90, 109, 57, 118] + [89, 109, 70, 121]
    ensures Encode([102, 111, 111] + [98, 97]) == [90, 109, 57, 118] + [89, 109, 69, 61]
    ensures Encode([102, 111, 111] + [98]) == [90, 109, 57, 118] + [89, 103, 61, 61]
  {
    SampleStart([102, 111, 111]);
    SampleBar([98, 97, 114]);
    SampleBa([98, 97]);
    SampleB([98]);
    SampleEnd([98, 97, 114]);
    SampleEnd([98, 97]);
    SampleEnd([98]);
  }

  /** The sextets of a number that is given by its sextets. */
  lemma SextetsOf(n: nat, w: nat, x: nat, y: nat, z: nat)
    requires x < 64 && y < 64 && z < 64 && n == ((w * 64 + x) * 64 + y) * 64 + z
    ensures n / 262144 == w && n / 4096 % 64 == x && n / 64 % 64 == y && n % 64 == z
  {
    var i, j := (w * 64 + x) * 64 + y, w * 64 + x;
    UniqueQuotient(n, 64, i, z);
    UniqueQuotient(i, 64, j, y);
    UniqueQuotient(j, 64, w, x);
    assert n / 4096 == n / 64 / 64 && n / 262144 == n / 4096 / 64;
  }

  lemma QuadOf(data: seq<byte>, w: nat, x: nat, y: nat, z: nat)
    requires data != [] && w < 64 && x < 64 && y < 64 && z < 64
    requires Group(data) == ((w * 64 + x) * 64 + y) * 64 + z
    ensures Quad(data)
         == [Letter(w), Letter(x), if |data| > 1 then Letter(y) else PAD, if |data| > 2 then Letter(z) else PAD]
  {
    SextetsOf(Group(data), w, x, y, z);
  }

  lemma SampleStart(data: seq<byte>)
    requires data == [102, 111, 111]
    ensures Quad(data) == [90, 109, 57, 118]
  {
    QuadOf(data, 25, 38, 61, 47);
  }

  lemma SampleBar(data: seq<byte>)
    requires data == [98, 97, 114]
    ensures Quad(data) == [89, 109, 70, 121]
  {
    QuadOf(data, 24, 38, 5, 50);
  }

  lemma SampleBa(data: seq<byte>)
    requires data == [98, 97]
    ensures Quad(data) == [89, 109, 69, 61]
  {
    QuadOf(data, 24, 38, 4, 0);
  }

  lemma SampleB(data: seq<byte>)
    requires data == [98]
    ensures Quad(data) == [89, 103, 61, 61]
  {
    QuadOf(data, 24, 32, 0, 0);
  }

  lemma EncodeShort(end: seq<byte>)
    requires 0 < |end| <= 3
    ensures Encode(end) == Quad(end)
  {
    assert Quad(end) + [] == Quad(end);
  }

  lemma SampleEnd(end: seq<byte>)
    requires 0 < |end| <= 3
    ensures Encode([102, 111, 111] + end) == Quad([102, 111, 111]) + Quad(end)
  {
    DecodeStep([102, 111, 111], end);
    EncodeShort(end);
  }

  /** Where each stretch of the alphabet of section 4 starts, and its last two characters. */
  lemma AlphabetSamples()
    ensures Encode([0, 16, 131]) == [65, 66, 67, 68] && Encode([105, 183, 29]) == [97, 98, 99, 100]
    ensures Encode([211, 93, 183]) == [48, 49, 50, 51]
    ensures Encode([251, 239, 190]) == [43, 43, 43, 43] && Encode([255, 255, 255]) == [47, 47, 47, 47]
  {
    SampleQuad(0, 16, 131, 0, 1, 2, 3);
    SampleQuad(105, 183, 29, 26, 27, 28, 29);
    SampleQuad(211, 93, 183, 52, 53, 54, 55);
    SampleQuad(251, 239, 190, 62, 62, 62, 62);
    SampleQuad(255, 255, 255, 63, 63, 63, 63);
  }

  lemma SampleQuad(a: byte, b: byte, c: byte, w: nat, x: nat, y: nat, z: nat)
    requires w < 64 && x < 64 && y < 64 && z < 64 && Pack(a, b, c) == ((w * 64 + x) * 64 + y) * 64 + z
    ensures Encode([a, b, c]) == [Letter(w), Letter(x), Letter(y), Letter(z)]
  {
    EncodeShort([a, b, c]);
    QuadOf([a, b, c], w, x, y, z);
  }
}
