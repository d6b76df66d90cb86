/** The lenient UTF-8 decoder of src/network/idn.c against the encoding of RFC 3629, section 3. */
module Utf8 {
  import opened Bytes

  const IDN_MAX_INPUT_LEN := 1024
  const MAX_DECODED := 0x1F_FFFF

  /** Payload bits of a byte taken as a continuation byte; its two top bits are not looked at. */
  function Low6(c: byte): (r: nat)
    ensures r < 64
  {
    c % 64
  }

  /** First code point and the bytes it takes, or None for a bad lead byte or a cut sequence. */
  function DecodeOne(s: seq<byte>): (r: Option<(nat, nat)>)
    requires s != []
    ensures r.Some? ==> r.value.0 <= MAX_DECODED && 1 <= r.value.1 <= |s|
  {
    var c := s[0];
    if c < 0x80 then Some((c, 1))
    else if 0xC0 <= c < 0xE0 then
      if |s| < 2 then None else Some(((c - 0xC0) * 64 + Low6(s[1]), 2))
    else if 0xE0 <= c < 0xF0 then
      if |s| < 3 then None else Some(((c - 0xE0) * 4096 + Low6(s[1]) * 64 + Low6(s[2]), 3))
    else if 0xF0 <= c < 0xF8 then
      if |s| < 4 then None
      else Some(((c - 0xF0) * 262144 + Low6(s[1]) * 4096 + Low6(s[2]) * 64 + Low6(s[3]), 4))
    else None
  }

  /** Code points of `s`, cut silently after `room` of them. */
  function Decode(s: seq<byte>, room: nat): (r: Option<seq<nat>>)
    ensures r.Some? ==> |r.value| <= room && |r.value| <= |s|
    ensures r.Some? ==> forall k :: 0 <= k < |r.value| ==> r.value[k] <= MAX_DECODED
    decreases |s|
  {
    if s == [] || room == 0 then Some([])
    else
      match DecodeOne(s)
      case None => None
      case Some(first) =>
        match Decode(s[first.1..], room - 1)
        case None => None
        case Some(rest) => Some([first.0] + rest)
  }

  lemma DecodeStep(s: seq<byte>, i: nat, room: nat)
    requires i < |s| && room > 0
    ensures var one, all := DecodeOne(s[i..]), Decode(s[i..], room);
            && (one.None? ==> all.None?)
            && (one.Some? ==>
                  var rest := Decode(s[i + one.value.1..], room - 1);
                  && (all.Some? <==> rest.Some?)
                  && (all.Some? ==> all.value == [one.value.0] + rest.value))
  {
    var one := DecodeOne(s[i..]);
    if one.Some? { assert s[i..][one.value.1..] == s[i + one.value.1..]; }
  }

  /** `all` is `done`, continued by what is still to decode. */
  ghost predicate Decoding(all: Option<seq<nat>>, done: seq<nat>, rest: Option<seq<nat>>) {
    (all.Some? <==> rest.Some?) && (all.Some? ==> all.value == done + rest.value)
  }

  lemma DecodingOn(all: Option<seq<nat>>, done: seq<nat>, c: nat, rest: Option<seq<nat>>, rest': Option<seq<nat>>)
    requires Decoding(all, done, rest) && (rest.Some? <==> rest'.Some?)
    requires rest.Some? ==> rest.value == [c] + rest'.value
    ensures Decoding(all, done + [c], rest')
  {
    if rest.Some? { assert done + ([c] + rest'.value) == done + [c] + rest'.value; }
  }

  /** One turn of the decoding loop: the next code point goes into the buffer. */
  method StoreNext(s: seq<byte>, i: nat, codePoints: array<nat>, j: nat, ghost all: Option<seq<nat>>)
    returns (ok: bool, next: nat)
    requires i < |s| && j < IDN_MAX_INPUT_LEN == codePoints.Length
    requires Decoding(all, codePoints[..j], Decode(s[i..], IDN_MAX_INPUT_LEN - j))
    modifies codePoints
    ensures !ok ==> all.None?
    ensures ok ==> i < next <= |s|
    ensures ok ==> Decoding(all, codePoints[..j + 1], Decode(s[next..], IDN_MAX_INPUT_LEN - j - 1))
  {
    DecodeStep(s, i, IDN_MAX_INPUT_LEN - j);
    var one := DecodeOne(s[i..]);
    if one.None? { return false, i; }
    var c: nat := one.value.0;
    ok, next := true, i + one.value.1;
    DecodingOn(all, codePoints[..j], c, Decode(s[i..], IDN_MAX_INPUT_LEN - j),
               Decode(s[next..], IDN_MAX_INPUT_LEN - j - 1));
    codePoints[j] := c;
    assert codePoints[..j + 1] == old(codePoints[..j]) + [c];
  }

  /** The decoding loop over the fixed code point buffer. */
  method DecodeInto(s: seq<byte>, codePoints: array<nat>) returns (ok: bool, count: nat)
    requires codePoints.Length == IDN_MAX_INPUT_LEN
    modifies codePoints
    ensures ok == Decode(s, IDN_MAX_INPUT_LEN).Some?
    ensures ok ==> count <= codePoints.Length && codePoints[..count] == Decode(s, IDN_MAX_INPUT_LEN).value
  {
    ghost var all := Decode(s, IDN_MAX_INPUT_LEN);
    var i: nat, j: nat := 0, 0;
    assert s[0..] == s && codePoints[..0] == [];
    while i < |s| && j < IDN_MAX_INPUT_LEN
      invariant i <= |s| && j <= IDN_MAX_INPUT_LEN
      invariant Decoding(all, codePoints[..j], Decode(s[i..], IDN_MAX_INPUT_LEN - j))
      decreases |s| - i
    {
      ok, i := StoreNext(s, i, codePoints, j, all);
      if !ok { return false, 0; }
      j := j + 1;
    }
    return true, j;
  }

  // ---------------------------------------------------------------- RFC 3629, section 3

  predicate IsScalar(v: nat) {
    v <= 0x10_FFFF && !(0xD800 <= v <= 0xDFFF)
  }

  function EncodeOne(v: nat): (r: seq<byte>)
    requires IsScalar(v)
    ensures 1 <= |r| <= 4
    ensures v >= 0x80 ==> forall k :: 0 <= k < |r| ==> r[k] >= 0x80
  {
    if v < 0x80 then [v]
    else if v < 0x800 then [0xC0 + v / 64, 0x80 + v % 64]
    else if v < 0x1_0000 then [0xE0 + v / 4096, 0x80 + v / 64 % 64, 0x80 + v % 64]
    else [0xF0 + v / 262144, 0x80 + v / 4096 % 64, 0x80 + v / 64 % 64, 0x80 + v % 64]
  }

  ghost predicate AllScalar(vs: seq<nat>) {
    forall k :: 0 <= k < |vs| ==> IsScalar(vs[k])
  }

  function Encode(vs: seq<nat>): seq<byte>
    requires AllScalar(vs)
  {
    if vs == [] then [] else EncodeOne(vs[0]) + Encode(vs[1..])
  }

  /** The four six-bit groups of a code point. */
  lemma SixBitGroups(v: nat)
    ensures v == v / 64 * 64 + v % 64
    ensures v == v / 4096 * 4096 + v / 64 % 64 * 64 + v % 64
    ensures v == v / 262144 * 262144 + v / 4096 % 64 * 4096 + v / 64 % 64 * 64 + v % 64
  {
    var a := v / 64;
    var b := a / 64;
    assert b == v / 4096;
    assert b / 64 == v / 262144;
  }

  lemma Low6Back(x: nat)
    requires x < 64
    ensures Low6(0x80 + x) == x
  {
  }

  lemma OneRoundTrip(v: nat, rest: seq<byte>)
    requires IsScalar(v)
    ensures DecodeOne(EncodeOne(v) + rest) == Some((v, |EncodeOne(v)|))
  {
    SixBitGroups(v);
    Low6Back(v % 64);
    Low6Back(v / 64 % 64);
    Low6Back(v / 4096 % 64);
    if v < 0x80 {
    } else if v < 0x800 {
      assert DecodeOne([0xC0 + v / 64, 0x80 + v % 64] + rest) == Some((v, 2));
    } else if v < 0x1_0000 {
      assert DecodeOne([0xE0 + v / 4096, 0x80 + v / 64 % 64, 0x80 + v % 64] + rest) == Some((v, 3));
    }
  }

  /** On well-formed input the lenient decoder is exact, up to the code point limit. */
  lemma {:induction false} DecodesWellFormed(vs: seq<nat>, room: nat)
    requires AllScalar(vs)
    ensures Decode(Encode(vs), room) == Some(if |vs| <= room then vs else vs[..room])
  {
    if vs != [] && room > 0 {
      DecodesWellFormed(vs[1..], room - 1);
      DecodesFirst(vs[0], Encode(vs[1..]), room);
      assert vs == [vs[0]] + vs[1..];
      if |vs| > room { assert vs[..room] == [vs[0]] + vs[1..][..room - 1]; }
    }
  }

  lemma DecodesFirst(v: nat, rest: seq<byte>, room: nat)
    requires IsScalar(v) && room > 0 && Decode(rest, room - 1).Some?
    ensures Decode(EncodeOne(v) + rest, room) == Some([v] + Decode(rest, room - 1).value)
  {
    OneRoundTrip(v, rest);
    assert (EncodeOne(v) + rest)[|EncodeOne(v)|..] == rest;
  }

  // ---------------------------------------------------------------- octets in numbers

  /** The table of section 3 of RFC 3629: ranges, lead octets, continuation octets, and what each is worth. */
  lemma EncodesInNumbers(v: nat)
    requires IsScalar(v)
    ensures v < 128 ==> EncodeOne(v) == [v]
    ensures 128 <= v < 2048 ==>
      var r := EncodeOne(v);
      |r| == 2 && 192 <= r[0] < 224 && IsTrail(r[1]) && v == Worth(r[0] - 192, r[1])
    ensures 2048 <= v < 65536 ==>
      var r := EncodeOne(v);
      |r| == 3 && 224 <= r[0] < 240 && IsTrail(r[1]) && IsTrail(r[2]) && v == Worth(Worth(r[0] - 224, r[1]), r[2])
    ensures 65536 <= v ==>
      var r := EncodeOne(v);
      && |r| == 4 && 240 <= r[0] < 248 && IsTrail(r[1]) && IsTrail(r[2]) && IsTrail(r[3])
      && v == Worth(Worth(Worth(r[0] - 240, r[1]), r[2]), r[3])
  {
    SixBitGroups(v);
    TrailOf(v);
    TrailOf(v / 64);
    TrailOf(v / 4096);
  }

  lemma TrailOf(v: nat)
    ensures 128 <= 0x80 + v % 64 < 192 && (0x80 + v % 64) % 64 == v % 64
  {
  }

  predicate IsTrail(c: byte) {
    128 <= c < 192
  }

  /** Six more bits behind what there is. */
  function Worth(before: nat, c: byte): nat {
    before * 64 + c % 64
  }

  /** What the decoder takes for a sequence: the lead octet alone says how long it is, and any octets may follow. */
  lemma DecodesInNumbers(s: seq<byte>)
    requires s != []
    ensures s[0] < 128 ==> DecodeOne(s) == Some((s[0], 1))
    ensures 128 <= s[0] < 192 || 248 <= s[0] ==> DecodeOne(s) == None
    ensures 192 <= s[0] < 224 ==>
      DecodeOne(s) == if |s| < 2 then None else Some((Worth(s[0] - 192, s[1]), 2))
    ensures 224 <= s[0] < 240 ==>
      DecodeOne(s) == if |s| < 3 then None else Some((Worth(Worth(s[0] - 224, s[1]), s[2]), 3))
    ensures 240 <= s[0] < 248 ==>
      DecodeOne(s) == if |s| < 4 then None else Some((Worth(Worth(Worth(s[0] - 240, s[1]), s[2]), s[3]), 4))
  {
  }
}
