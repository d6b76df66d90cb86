/**
 * JSON string escaping: src/utils/utils.c:387-510 (growing buffer, and its inverse) and
 * src/report/report.c:40-99 (fixed buffer).
 */
module JsonEscape {
  import opened Bytes
  import Strtol

  const QUOTE: byte := 34
  const BACKSLASH: byte := 92

  // ---------------------------------------------------------------- escaping

  function HexDigit(x: nat): byte
    requires x < 16
  {
    if x < 10 then 48 + x else 65 + (x - 10)
  }

  /** The letter after the backslash in a two-character escape. */
  function ShortEscape(c: byte): Option<byte> {
    if c == QUOTE || c == BACKSLASH then Some(c)
    else if c == 8 then Some(98)
    else if c == 12 then Some(102)
    else if c == 10 then Some(110)
    else if c == 13 then Some(114)
    else if c == 9 then Some(116)
    else None
  }

  /** One byte escaped: two characters, six for other control characters, or itself. */
  function EscapeByte(c: byte): (e: seq<byte>)
    ensures |e| == 1 || |e| == 2 || |e| == 6
  {
    if ShortEscape(c).Some? then [BACKSLASH, ShortEscape(c).value]
    else if c < 0x20 then [BACKSLASH, 117, 48, 48, HexDigit(c / 16), HexDigit(c % 16)]
    else [c]
  }

  function Escape(s: CStr): seq<byte> {
    if s == [] then [] else EscapeByte(s[0]) + Escape(s[1..])
  }

  lemma {:induction false} EscapeLength(s: CStr)
    ensures |s| <= |Escape(s)| <= 6 * |s|
  {
    if s != [] { EscapeLength(s[1..]); }
  }

  // ---------------------------------------------------------------- unescaping

  /** `strtoul` in base 16: leading space, sign and 0x are accepted, a minus wraps around. */
  function HexValue(c: byte): Option<nat> {
    if 48 <= c <= 57 then Some(c - 48)
    else if 65 <= c <= 70 then Some(c - 65 + 10)
    else if 97 <= c <= 102 then Some(c - 97 + 10)
    else None
  }

  function HexNumber(s: CStr, acc: nat): nat {
    if s == [] || HexValue(s[0]).None? then acc else HexNumber(s[1..], acc * 16 + HexValue(s[0]).value)
  }

  function SkipHexPrefix(s: CStr): CStr {
    if |s| > 2 && s[0] == 48 && (s[1] == 120 || s[1] == 88) && HexValue(s[2]).Some? then s[2..] else s
  }

  function ParseHex(s: CStr): nat {
    var t := Strtol.SkipSpace(s);
    var negative := t != [] && t[0] == 45;
    var u := if t != [] && (t[0] == 45 || t[0] == 43) then t[1..] else t;
    var v: int := HexNumber(SkipHexPrefix(u), 0);
    (if negative then 0 - v else v) % 0x1_0000_0000
  }

  /** The UTF-8 octets written for a code point, if `room` is left for them. */
  function Utf8(cp: nat, room: nat): (r: seq<byte>)
    ensures |r| <= room
  {
    if cp < 0x80 then (if room >= 1 then [cp] else [])
    else if cp < 0x800 then (if room >= 2 then [0xC0 + cp / 64, 0x80 + cp % 64] else [])
    else if room >= 3 then [0xE0 + cp / 4096 % 32, 0x80 + cp / 64 % 64, 0x80 + cp % 64]
    else []
  }

  function LongEscape(c: byte): byte {
    if c == 98 then 8 else if c == 102 then 12 else if c == 110 then 10
    else if c == 114 then 13 else if c == 116 then 9 else c
  }

  /** How much of a nonempty rest the next character or escape takes. */
  function Takes(s: CStr): (n: nat)
    requires s != []
    ensures 1 <= n <= |s|
  {
    if s[0] != BACKSLASH || |s| == 1 then 1 else if s[1] == 117 && |s| >= 6 then 6 else 2
  }

  /** What it writes. */
  function Writes(s: CStr, room: nat): (w: seq<byte>)
    requires s != [] && room > 0
    ensures |w| <= room
  {
    var n := Takes(s);
    if n == 1 then [s[0]] else if n == 6 then Utf8(ParseHex(s[2..6]), room) else [LongEscape(s[1])]
  }

  function Unescape(s: CStr, room: nat): seq<byte> {
    if s == [] || room == 0 then []
    else
      var w := Writes(s, room);
      w + Unescape(s[Takes(s)..], room - |w|)
  }

  // ---------------------------------------------------------------- round trip

  lemma ControlHex(c: byte)
    requires 0 < c < 0x20
    ensures ParseHex([48, 48, HexDigit(c / 16), HexDigit(c % 16)]) == c
  {
    var a, b := c / 16, c % 16;
    var s: CStr := [48, 48, HexDigit(a), HexDigit(b)];
    assert Strtol.SkipSpace(s) == s && SkipHexPrefix(s) == s;
    assert HexValue(HexDigit(a)) == Some(a) && HexValue(HexDigit(b)) == Some(b);
    assert s[1..] == [48, HexDigit(a), HexDigit(b)] && s[1..][1..] == [HexDigit(a), HexDigit(b)];
    assert [HexDigit(a), HexDigit(b)][1..] == [HexDigit(b)] && [HexDigit(b)][1..] == [];
    assert HexNumber([HexDigit(b)], a) == HexNumber([], a * 16 + b);
    assert HexNumber([HexDigit(a), HexDigit(b)], 0) == HexNumber([HexDigit(b)], a);
    assert HexNumber(s[1..], 0) == HexNumber([HexDigit(a), HexDigit(b)], 0);
  }

  lemma UnescapesOne(c: byte, rest: CStr, room: nat)
    requires c != 0 && room > 0
    ensures var s := EscapeByte(c) + rest;
            Takes(s) == |EscapeByte(c)| && Writes(s, room) == [c]
  {
    var s := EscapeByte(c) + rest;
    if ShortEscape(c).None? && c < 0x20 {
      assert s[2..6] == [48, 48, HexDigit(c / 16), HexDigit(c % 16)];
      ControlHex(c);
    }
  }

  lemma UnescapesHead(e: seq<byte>, c: byte, rest: CStr, room: nat)
    requires e != [] && room > 0 && Takes(e + rest) == |e| && Writes(e + rest, room) == [c]
    ensures Unescape(e + rest, room) == [c] + Unescape(rest, room - 1)
  {
    assert (e + rest)[|e|..] == rest;
  }

  lemma UnescapesNext(s: CStr, room: nat)
    requires s != [] && s[0] != 0 && room > 0
    ensures Unescape(Escape(s), room) == [s[0]] + Unescape(Escape(s[1..]), room - 1)
  {
    UnescapesOne(s[0], Escape(s[1..]), room);
    UnescapesHead(EscapeByte(s[0]), s[0], Escape(s[1..]), room);
  }

  /** The first `n` characters, or all if there are fewer. */
  function Clip(s: CStr, n: nat): CStr {
    if |s| <= n then s else s[..n]
  }

  lemma ClipCons(s: CStr, n: nat)
    requires s != [] && n > 0
    ensures Clip(s, n) == [s[0]] + Clip(s[1..], n - 1)
  {
  }

  /** Unescaping an escaped string gives it back, as far as the output has room. */
  lemma {:induction false} RoundTrip(s: CStr, room: nat)
    requires 0 !in s
    ensures Unescape(Escape(s), room) == Clip(s, room)
  {
    if s != [] && room > 0 {
      RoundTrip(s[1..], room - 1);
      RoundTripStep(s, room);
    }
  }

  lemma RoundTripStep(s: CStr, room: nat)
    requires s != [] && s[0] != 0 && room > 0 && Unescape(Escape(s[1..]), room - 1) == Clip(s[1..], room - 1)
    ensures Unescape(Escape(s), room) == Clip(s, room)
  {
    UnescapesNext(s, room);
    ClipCons(s, room);
  }

  /** RFC 8259, section 7, octet-wise: what may stand between the quotes of a JSON string. */
  predicate IsJsonBody(s: seq<byte>) {
    if s == [] then true
    else if s[0] != BACKSLASH then s[0] >= 0x20 && s[0] != QUOTE && IsJsonBody(s[1..])
    else if |s| < 2 then false
    else if s[1] != 117 then s[1] in {QUOTE, BACKSLASH, 47, 98, 102, 110, 114, 116} && IsJsonBody(s[2..])
    else |s| >= 6 && (forall i :: 2 <= i < 6 ==> HexValue(s[i]).Some?) && IsJsonBody(s[6..])
  }

  /** Escaping always yields the inside of a well-formed JSON string. */
  lemma {:induction false} EscapeIsJson(s: CStr)
    ensures IsJsonBody(Escape(s))
  {
    if s != [] {
      EscapeIsJson(s[1..]);
      var e, rest := EscapeByte(s[0]), Escape(s[1..]);
      assert (e + rest)[|e|..] == rest;
    }
  }

  // ---------------------------------------------------------------- the C functions

  lemma EscapeStep(done: seq<byte>, s: CStr, i: nat)
    requires i < |s|
    ensures done + Escape(s[i..]) == done + EscapeByte(s[i]) + Escape(s[i + 1..])
  {
    assert s[i..][1..] == s[i + 1..];
    Assoc(done, EscapeByte(s[i]), Escape(s[i + 1..]));
  }

  /** `utils_json_escape`: the worst-case buffer always suffices, so nothing is ever cut. */
  method JsonEscapeString(str: CStr) returns (escaped: array<byte>, len: nat)
    ensures fresh(escaped) && len < escaped.Length
    ensures escaped[..len + 1] == Escape(str) + [0]
  {
    var escapedLen := |str| * 6 + 1;
    escaped := new byte[escapedLen];
    len := 0;
    assert str[0..] == str;
    for i := 0 to |str|
      invariant len <= 6 * i
      invariant escaped[..len] + Escape(str[i..]) == Escape(str)
    {
      var e := EscapeByte(str[i]);
      // The source stops here when fewer than seven octets are left.
      if |e| == 6 && escapedLen - len < 7 { assert false; }
      EscapeStep(escaped[..len], str, i);
      CopyTo(escaped, len, e);
      len := len + |e|;
    }
    escaped[len] := 0;
    assert escaped[..len + 1] == escaped[..len] + [0];
  }

  lemma UnescapeStep(done: seq<byte>, s: CStr, room: nat)
    requires s != [] && room > 0
    ensures var w := Writes(s, room);
            done + Unescape(s, room) == done + w + Unescape(s[Takes(s)..], room - |w|)
  {
    var w := Writes(s, room);
    Assoc(done, w, Unescape(s[Takes(s)..], room - |w|));
  }

  /** One character or escape of `utils_json_unescape`. */
  method UnescapeNext(rest: CStr, out: array<byte>, at: nat) returns (taken: nat, len: nat)
    requires rest != [] && at < out.Length - 1
    modifies out
    ensures at <= len < out.Length && 1 <= taken <= |rest|
    ensures out[..len] + Unescape(rest[taken..], out.Length - 1 - len)
         == old(out[..at]) + Unescape(rest, out.Length - 1 - at)
  {
    var room := out.Length - 1 - at;
    var written := Writes(rest, room);
    taken := Takes(rest);
    UnescapeStep(out[..at], rest, room);
    CopyTo(out, at, written);
    len := at + |written|;
  }

  /** `utils_json_unescape` */
  method JsonUnescapeString(json: CStr, out: array<byte>) returns (rc: int, len: nat)
    modifies out
    ensures out.Length == 0 ==> rc == -1
    ensures out.Length > 0 ==> rc == 0 && len < out.Length && out[..len + 1] == Unescape(json, out.Length - 1) + [0]
  {
    len := 0;
    if out.Length == 0 { return -1, 0; }
    var rest := json;
    ghost var all := Unescape(json, out.Length - 1);
    while rest != [] && len < out.Length - 1
      invariant len < out.Length
      invariant out[..len] + Unescape(rest, out.Length - 1 - len) == all
      decreases |rest|
    {
      var taken;
      taken, len := UnescapeNext(rest, out, len);
      rest := rest[taken..];
    }
    out[len] := 0;
    assert out[..len + 1] == out[..len] + [0];
    rc := 0;
  }

  // ---------------------------------------------------------------- the fixed-buffer escaper

  /** The characters that are kept when `room` octets are left: each whole, or not at all. */
  function Kept(s: CStr, room: nat): CStr {
    if s == [] || room == 0 then []
    else
      var e := EscapeByte(s[0]);
      if |e| <= room then [s[0]] + Kept(s[1..], room - |e|) else Kept(s[1..], room)
  }

  /** The octets written for them. */
  function Bounded(s: CStr, room: nat): seq<byte> {
    if s == [] || room == 0 then []
    else
      var e := EscapeByte(s[0]);
      if |e| <= room then e + Bounded(s[1..], room - |e|) else Bounded(s[1..], room)
  }

  lemma {:induction false} BoundedIsEscape(s: CStr, room: nat)
    ensures Bounded(s, room) == Escape(Kept(s, room))
  {
    if s != [] && room > 0 {
      var e := EscapeByte(s[0]);
      if |e| <= room {
        BoundedIsEscape(s[1..], room - |e|);
        var k := Kept(s, room);
        assert k[0] == s[0] && k[1..] == Kept(s[1..], room - |e|);
      } else {
        BoundedIsEscape(s[1..], room);
      }
    }
  }

  predicate IsSubsequence(a: CStr, b: CStr)
    decreases |b|
  {
    a == [] || (b != [] && ((a[0] == b[0] && IsSubsequence(a[1..], b[1..])) || IsSubsequence(a, b[1..])))
  }

  /** What the fixed buffer holds is the escape of a subsequence, and fits. */
  lemma {:induction false} KeptIsSubsequence(s: CStr, room: nat)
    ensures IsSubsequence(Kept(s, room), s) && |Escape(Kept(s, room))| <= room
    ensures 0 !in s ==> 0 !in Kept(s, room)
  {
    if s != [] && room > 0 {
      var e := EscapeByte(s[0]);
      var rest := if |e| <= room then room - |e| else room;
      KeptIsSubsequence(s[1..], rest);
      if |e| <= room {
        var k := Kept(s, room);
        assert k[0] == s[0] && k[1..] == Kept(s[1..], rest);
      }
    }
  }

  /** Nothing is dropped exactly when the whole escape fits. */
  lemma {:induction false} KeptAllIff(s: CStr, room: nat)
    ensures Kept(s, room) == s <==> |Escape(s)| <= room
  {
    KeptIsSubsequence(s, room);
    if s != [] && room > 0 {
      var e := EscapeByte(s[0]);
      if |e| <= room {
        KeptAllIff(s[1..], room - |e|);
        assert s == [s[0]] + s[1..];
      }
    } else if s != [] {
      EscapeLength(s);
    }
  }

  /** Unescaping the fixed buffer's contents gives the kept characters; with room for all, the source. */
  lemma BoundedRoundTrip(s: CStr, room: nat, n: nat)
    requires 0 !in s && n >= |s|
    ensures Unescape(Escape(Kept(s, room)), n) == Kept(s, room)
    ensures IsSubsequence(Kept(s, room), s)
    ensures 6 * |s| <= room ==> Escape(Kept(s, room)) == Escape(s)
  {
    KeptIsSubsequence(s, room);
    SubsequenceLength(Kept(s, room), s);
    RoundTrip(Kept(s, room), n);
    EscapeLength(s);
    KeptAllIff(s, room);
  }

  lemma {:induction false} SubsequenceLength(a: CStr, b: CStr)
    requires IsSubsequence(a, b)
    ensures |a| <= |b|
    decreases |b|
  {
    if a != [] {
      if a[0] == b[0] && IsSubsequence(a[1..], b[1..]) { SubsequenceLength(a[1..], b[1..]); }
      else { SubsequenceLength(a, b[1..]); }
    }
  }

  /** What is written for a character when `room` octets are left: its escape, or nothing. */
  function Fitting(c: byte, room: nat): (w: seq<byte>)
    ensures |w| <= room
  {
    if |EscapeByte(c)| <= room then EscapeByte(c) else []
  }

  lemma BoundedStep(done: seq<byte>, s: CStr, room: nat)
    requires s != [] && room > 0
    ensures var w := Fitting(s[0], room);
            done + Bounded(s, room) == done + w + Bounded(s[1..], room - |w|)
  {
    var w := Fitting(s[0], room);
    Assoc(done, w, Bounded(s[1..], room - |w|));
  }

  /** One character of `escape_json_string`, with the source's guard for each escape length. */
  method EscapeNext(rest: CStr, dst: array<byte>, at: nat) returns (len: nat)
    requires rest != [] && dst.Length >= 7 && at < dst.Length - 1
    modifies dst
    ensures at <= len < dst.Length
    ensures dst[..len] + Bounded(rest[1..], dst.Length - 1 - len) == old(dst[..at]) + Bounded(rest, dst.Length - 1 - at)
  {
    var e := EscapeByte(rest[0]);
    BoundedStep(dst[..at], rest, dst.Length - 1 - at);
    len := at;
    if |e| == 1 || (|e| == 2 && at < dst.Length - 2) || (|e| == 6 && at < dst.Length - 6) {
      CopyTo(dst, at, e);
      len := at + |e|;
    }
  }

  /** `escape_json_string`: a buffer under seven octets gets an empty string. */
  method EscapeIntoBuffer(src: CStr, dst: array<byte>) returns (ghost len: nat)
    modifies dst
    ensures 0 < dst.Length < 7 ==> dst[0] == 0
    ensures dst.Length >= 7 ==>
      len < dst.Length && dst[..len + 1] == Escape(Kept(src, dst.Length - 1)) + [0]
  {
    len := 0;
    if dst.Length < 7 {
      if dst.Length > 0 { dst[0] := 0; }
      return;
    }
    var rest := src;
    var j: nat := 0;
    ghost var all := Bounded(src, dst.Length - 1);
    while rest != [] && j < dst.Length - 1
      invariant j < dst.Length
      invariant dst[..j] + Bounded(rest, dst.Length - 1 - j) == all
      decreases |rest|
    {
      j := EscapeNext(rest, dst, j);
      rest := rest[1..];
    }
    dst[j] := 0;
    assert dst[..j + 1] == dst[..j] + [0];
    BoundedIsEscape(src, dst.Length - 1);
    len := j;
  }

  // ---------------------------------------------------------------- escapes in numbers

  /** Each octet's escape. */
  lemma EscapesInNumbers(c: byte)
    ensures Escape([c]) ==
              if c == 34 then [92, 34] else if c == 92 then [92, 92]
              else if c == 8 then [92, 98] else if c == 9 then [92, 116] else if c == 10 then [92, 110]
              else if c == 12 then [92, 102] else if c == 13 then [92, 114]
              else if c < 32 then [92, 117, 48, 48, 48 + c / 16, if c % 16 < 10 then 48 + c % 16 else 55 + c % 16]
              else [c]
  {
    assert Escape([c]) == EscapeByte(c) + [];
  }

  /** A string is escaped octet by octet. */
  lemma {:induction false} EscapeConcat(a: CStr, b: CStr)
    ensures Escape(a + b) == Escape(a) + Escape(b)
  {
    if a == [] {
      assert a + b == b;
    } else {
      assert (a + b)[1..] == a[1..] + b;
      EscapeConcat(a[1..], b);
      Assoc(EscapeByte(a[0]), Escape(a[1..]), Escape(b));
    }
  }

  /** Octets that start no escape stand for themselves, and so does a backslash at the end. */
  lemma UnescapesPlain(c: byte, rest: CStr, room: nat)
    requires room > 0
    ensures c != 92 ==> Unescape([c] + rest, room) == [c] + Unescape(rest, room - 1)
    ensures Unescape([92], room) == [92] && Unescape([], room) == [] && Unescape([c] + rest, 0) == []
  {
    assert ([c] + rest)[1..] == rest;
    assert [92][1..] == [];
  }

  /** A backslash and a letter; what is no known letter stands for itself, and so does a u with too little behind it. */
  lemma UnescapesLetter(x: byte, rest: CStr, room: nat)
    requires room > 0 && (x == 117 ==> |rest| < 4)
    ensures Unescape([92, x] + rest, room) ==
              [if x == 98 then 8 else if x == 102 then 12 else if x == 110 then 10 else if x == 114 then 13
               else if x == 116 then 9 else x] + Unescape(rest, room - 1)
  {
    assert ([92, x] + rest)[2..] == rest;
  }

  /** A hexadecimal digit of either case. */
  function Hex(c: byte): Option<nat> {
    if 48 <= c <= 57 then Some(c - 48)
    else if 65 <= c <= 70 then Some(c - 55)
    else if 97 <= c <= 102 then Some(c - 87)
    else None
  }

  function HexFour(a: nat, b: nat, c: nat, d: nat): nat {
    a * 4096 + b * 256 + c * 16 + d
  }

  lemma HexAt(s: CStr, k: nat, acc: nat)
    requires k < |s| && Hex(s[k]).Some?
    ensures HexNumber(s[k..], acc) == HexNumber(s[k + 1..], acc * 16 + Hex(s[k]).value)
  {
    assert s[k..][1..] == s[k + 1..];
  }

  lemma ParsesBare(s: CStr)
    requires |s| == 4 && Hex(s[0]).Some? && Hex(s[1]).Some?
    ensures ParseHex(s) == HexNumber(s, 0) % 0x1_0000_0000
  {
    assert Strtol.SkipSpace(s) == s && SkipHexPrefix(s) == s;
  }

  lemma HexOfFour(s: CStr, a: nat, b: nat, c: nat, d: nat)
    requires |s| == 4 && Hex(s[0]) == Some(a) && Hex(s[1]) == Some(b) && Hex(s[2]) == Some(c) && Hex(s[3]) == Some(d)
    ensures HexNumber(s[0..], 0) == HexFour(a, b, c, d)
  {
    HexAt(s, 0, 0);
    HexAt(s, 1, a);
    HexAt(s, 2, a * 16 + b);
    HexAt(s, 3, (a * 16 + b) * 16 + c);
    assert s[4..] == [];
  }

  /** The code point four hexadecimal digits stand for. */
  lemma ParsesFour(s: CStr, a: nat, b: nat, c: nat, d: nat)
    requires |s| == 4 && Hex(s[0]) == Some(a) && Hex(s[1]) == Some(b) && Hex(s[2]) == Some(c) && Hex(s[3]) == Some(d)
    ensures ParseHex(s) == HexFour(a, b, c, d) < 65536
  {
    ParsesBare(s);
    HexOfFour(s, a, b, c, d);
    assert s[0..] == s;
    FourBound(a, b, c, d);
  }

  lemma FourBound(a: nat, b: nat, c: nat, d: nat)
    requires a < 16 && b < 16 && c < 16 && d < 16
    ensures HexFour(a, b, c, d) < 65536 && HexFour(a, b, c, d) % 4294967296 == HexFour(a, b, c, d)
  {
  }

  lemma Utf8InNumbers(v: nat, room: nat)
    requires v < 65536 && room > 0
    ensures Utf8(v, room) ==
              if v < 128 then [v]
              else if v < 2048 then (if room >= 2 then [192 + v / 64, 128 + v % 64] else [])
              else if room >= 3 then [224 + v / 4096, 128 + v / 64 % 64, 128 + v % 64]
              else []
  {
  }

  lemma TakesSix(four: CStr, rest: CStr, room: nat)
    requires |four| == 4 && room > 0
    ensures var w := Utf8(ParseHex(four), room);
            Unescape([92, 117] + four + rest, room) == w + Unescape(rest, room - |w|)
  {
    var s := [92, 117] + four + rest;
    assert s[2..6] == four && s[6..] == rest;
  }

  /** A u and four hexadecimal digits: below 128 one octet is written. */
  lemma UnescapesAscii(four: CStr, rest: CStr, room: nat)
    requires |four| == 4 && ParseHex(four) < 128 && room > 0
    ensures Unescape([92, 117] + four + rest, room) == [ParseHex(four)] + Unescape(rest, room - 1)
  {
    TakesSix(four, rest, room);
    Utf8InNumbers(ParseHex(four), room);
  }

  /** Below 2048 two, or nothing where they do not fit. */
  lemma UnescapesTwo(four: CStr, rest: CStr, room: nat)
    requires |four| == 4 && 128 <= ParseHex(four) < 2048 && room > 0
    ensures room >= 2 ==>
      Unescape([92, 117] + four + rest, room)
        == [192 + ParseHex(four) / 64, 128 + ParseHex(four) % 64] + Unescape(rest, room - 2)
    ensures room < 2 ==> Unescape([92, 117] + four + rest, room) == Unescape(rest, room)
  {
    TakesSix(four, rest, room);
    Utf8InNumbers(ParseHex(four), room);
    if room < 2 { assert [] + Unescape(rest, room) == Unescape(rest, room); }
  }

  /** From there on three, or nothing where they do not fit. */
  lemma UnescapesThree(four: CStr, rest: CStr, room: nat)
    requires |four| == 4 && 2048 <= ParseHex(four) < 65536 && room > 0
    ensures room >= 3 ==>
      Unescape([92, 117] + four + rest, room)
        == [224 + ParseHex(four) / 4096, 128 + ParseHex(four) / 64 % 64, 128 + ParseHex(four) % 64]
           + Unescape(rest, room - 3)
    ensures room < 3 ==> Unescape([92, 117] + four + rest, room) == Unescape(rest, room)
  {
    TakesSix(four, rest, room);
    Utf8InNumbers(ParseHex(four), room);
    if room < 3 { assert [] + Unescape(rest, room) == Unescape(rest, room); }
  }

  /** `next` is what is kept of a string and one more character, given what is kept of the string. */
  ghost predicate ExtendsKept(kept: CStr, next: CStr, c: byte, room: nat) {
    next == kept + (if |Escape(kept)| + |Escape([c])| <= room then [c] else [])
  }

  lemma ExtendsHead(head: byte, kept: CStr, next: CStr, c: byte, room: nat)
    requires |EscapeByte(head)| <= room && ExtendsKept(kept, next, c, room - |EscapeByte(head)|)
    ensures ExtendsKept([head] + kept, [head] + next, c, room)
  {
    assert ([head] + kept)[1..] == kept;
  }

  /** In the fixed buffer: a further character is kept exactly when its escape fits behind those of the kept ones. */
  lemma {:induction false} KeptNext(s: CStr, c: byte, room: nat)
    ensures ExtendsKept(Kept(s, room), Kept(s + [c], room), c, room)
  {
    if s == [] || room == 0 {
      assert Escape([c]) == EscapeByte(c) + [];
      if s == [] { assert s + [c] == [c] && [c][1..] == []; }
    } else {
      var e := EscapeByte(s[0]);
      var left := if |e| <= room then room - |e| else room;
      KeptHead(s, s[1..], room);
      KeptHead(s + [c], s[1..] + [c], room);
      KeptNext(s[1..], c, left);
      if |e| <= room { ExtendsHead(s[0], Kept(s[1..], left), Kept(s[1..] + [c], left), c, room); }
    }
  }

  /** The first character, kept or not, and what is kept behind it. */
  lemma KeptHead(s: CStr, rest: CStr, room: nat)
    requires s != [] && room > 0 && s[1..] == rest
    ensures var e := EscapeByte(s[0]);
            Kept(s, room) == if |e| <= room then [s[0]] + Kept(rest, room - |e|) else Kept(rest, room)
  {
  }
}
