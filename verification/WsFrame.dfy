/**
 * RFC 6455 frames: the wire format of section 5.2 with the masking of section 5.3, and the
 * acceptance rules of the frame reader in src/network/websocket.c:589-672.
 */
module WsFrame {
  import opened Bytes

  datatype Frame = Frame(fin: bool, opcode: nat, payload: seq<byte>)

  type Key = k: seq<byte> | |k| == 4 witness [0, 0, 0, 0]

  /** Which of the three length encodings a frame header uses. */
  datatype LengthForm = Short | Medium | Long

  // ---------------------------------------------------------------- masking

  /** Octet i of the data against octet i modulo 4 of the key. */
  function Mask(data: seq<byte>, key: Key): (r: seq<byte>)
    ensures |r| == |data|
  {
    if data == [] then []
    else
      var last := |data| - 1;
      Mask(data[..last], key) + [XorByte(data[last], key[last % 4])]
  }

  lemma {:induction false} MaskTwice(data: seq<byte>, key: Key)
    ensures Mask(Mask(data, key), key) == data
  {
    if data != [] {
      var last := |data| - 1;
      var masked := Mask(data, key);
      assert masked[..last] == Mask(data[..last], key);
      MaskTwice(data[..last], key);
      XorTwice(data[last], key[last % 4]);
      assert data == data[..last] + [data[last]];
    }
  }

  // ---------------------------------------------------------------- network byte order

  function Pow256(w: nat): nat {
    if w == 0 then 1 else 256 * Pow256(w - 1)
  }

  function ToBig(n: nat, w: nat): (r: seq<byte>)
    ensures |r| == w
  {
    if w == 0 then [] else ToBig(n / 256, w - 1) + [n % 256]
  }

  function FromBig(s: seq<byte>): nat {
    if s == [] then 0 else FromBig(s[..|s| - 1]) * 256 + s[|s| - 1]
  }

  lemma {:induction false} BigRoundTrip(n: nat, w: nat)
    requires n < Pow256(w)
    ensures FromBig(ToBig(n, w)) == n
  {
    if w > 0 {
      BigRoundTrip(n / 256, w - 1);
      assert ToBig(n, w)[..w - 1] == ToBig(n / 256, w - 1);
    }
  }

  lemma {:induction false} FromBigInverse(s: seq<byte>)
    ensures FromBig(s) < Pow256(|s|) && ToBig(FromBig(s), |s|) == s
  {
    if s != [] {
      FromBigInverse(s[..|s| - 1]);
      assert s == s[..|s| - 1] + [s[|s| - 1]];
    }
  }

  // ---------------------------------------------------------------- the wire format

  predicate FormFits(form: LengthForm, len: nat) {
    match form
    case Short => len <= 125
    case Medium => len < 0x1_0000
    case Long => len < 0x1_0000_0000_0000_0000
  }

  /** The form the RFC asks for: the shortest that fits. */
  function MinimalForm(len: nat): LengthForm {
    if len <= 125 then Short else if len <= 65535 then Medium else Long
  }

  function LengthCode(form: LengthForm, len: nat): (c: nat)
    requires FormFits(form, len)
    ensures c < 128
  {
    match form case Short => len case Medium => 126 case Long => 127
  }

  function ExtendedLength(form: LengthForm, len: nat): seq<byte> {
    match form case Short => [] case Medium => ToBig(len, 2) case Long => ToBig(len, 8)
  }

  function FirstByte(fin: bool, opcode: nat): byte
    requires opcode < 16
  {
    (if fin then 128 else 0) + opcode
  }

  function SecondByte(masked: bool, code: nat): byte
    requires code < 128
  {
    (if masked then 128 else 0) + code
  }

  /** Masking key, if any, and payload. */
  function Body(payload: seq<byte>, key: Option<Key>): seq<byte> {
    match key case None => payload case Some(k) => k + Mask(payload, k)
  }

  function Tail(f: Frame, key: Option<Key>, form: LengthForm): seq<byte> {
    ExtendedLength(form, |f.payload|) + Body(f.payload, key)
  }

  function Encode(f: Frame, key: Option<Key>, form: LengthForm): seq<byte>
    requires f.opcode < 16 && FormFits(form, |f.payload|)
  {
    [FirstByte(f.fin, f.opcode), SecondByte(key.Some?, LengthCode(form, |f.payload|))] + Tail(f, key, form)
  }

  // ---------------------------------------------------------------- the reader

  predicate IsControl(opcode: nat) {
    0x08 <= opcode <= 0x0A
  }

  predicate IsReserved(opcode: nat) {
    0x03 <= opcode <= 0x07 || 0x0B <= opcode <= 0x0F
  }

  /** Known opcodes, and the rules of section 5.5 for control frames. */
  predicate Acceptable(f: Frame) {
    !IsReserved(f.opcode) && (IsControl(f.opcode) ==> f.fin && |f.payload| <= 125)
  }

  function ReadLength(code: nat, s: seq<byte>): Option<(nat, seq<byte>)> {
    if code == 126 then
      if |s| < 2 then None else Some((FromBig(s[..2]), s[2..]))
    else if code == 127 then
      if |s| < 8 then None else Some((FromBig(s[..8]), s[8..]))
    else Some((code, s))
  }

  /** A payload of known length, refused when larger than the caller's buffer. */
  function ReadPlain(len: nat, s: seq<byte>, cap: nat): Option<(seq<byte>, seq<byte>)> {
    if len > cap || |s| < len then None else Some((s[..len], s[len..]))
  }

  /** Masking key, if announced, and payload. */
  function ReadBody(masked: bool, len: nat, s: seq<byte>, cap: nat): Option<(seq<byte>, seq<byte>)> {
    if !masked then ReadPlain(len, s, cap)
    else if |s| < 4 then None
    else
      match ReadPlain(len, s[4..], cap)
      case None => None
      case Some(p) => Some((Mask(p.0, s[..4]), p.1))
  }

  /** What follows the two fixed header bytes. */
  function ReadRest(fin: bool, opcode: nat, masked: bool, code: nat, s: seq<byte>, cap: nat)
    : (r: Option<(Frame, seq<byte>)>)
    ensures r.Some? ==> |r.value.1| <= |s|
  {
    match ReadLength(code, s)
    case None => None
    case Some(l) =>
      if IsControl(opcode) && (l.0 > 125 || !fin) then None
      else
        match ReadBody(masked, l.0, l.1, cap)
        case None => None
        case Some(b) => Some((Frame(fin, opcode, b.0), b.1))
  }

  /** The next frame of a byte stream and the bytes after it; None is the reader's error exit. */
  function Read(s: seq<byte>, cap: nat): (r: Option<(Frame, seq<byte>)>)
    ensures r.Some? ==> |r.value.1| < |s|
  {
    if |s| < 2 || s[0] / 16 % 8 != 0 || IsReserved(s[0] % 16) then None
    else ReadRest(s[0] >= 128, s[0] % 16, s[1] >= 128, s[1] % 128, s[2..], cap)
  }

  // ---------------------------------------------------------------- reader against format

  lemma ReadsLength(form: LengthForm, len: nat, rest: seq<byte>)
    requires FormFits(form, len)
    ensures ReadLength(LengthCode(form, len), ExtendedLength(form, len) + rest) == Some((len, rest))
  {
    var s := ExtendedLength(form, len) + rest;
    match form
    case Short =>
      assert s == rest;
    case Medium =>
      Pow256Values();
      BigRoundTrip(len, 2);
      assert s[..2] == ToBig(len, 2) && s[2..] == rest;
    case Long =>
      Pow256Values();
      BigRoundTrip(len, 8);
      assert s[..8] == ToBig(len, 8) && s[8..] == rest;
  }

  lemma Pow256Values()
    ensures Pow256(2) == 0x1_0000 && Pow256(8) == 0x1_0000_0000_0000_0000
  {
    assert Pow256(2) == 256 * Pow256(1) && Pow256(4) == 256 * Pow256(3) && Pow256(3) == 256 * Pow256(2);
    assert Pow256(6) == 256 * Pow256(5) && Pow256(5) == 256 * Pow256(4);
  }

  lemma ReadsBody(payload: seq<byte>, key: Option<Key>, rest: seq<byte>, cap: nat)
    ensures ReadBody(key.Some?, |payload|, Body(payload, key) + rest, cap)
         == if |payload| <= cap then Some((payload, rest)) else None
  {
    var s := Body(payload, key) + rest;
    if key.Some? {
      var masked := Mask(payload, key.value);
      assert s[..4] == key.value && s[4..] == masked + rest;
      ReadsPlain(masked, rest, cap);
      MaskTwice(payload, key.value);
    } else {
      ReadsPlain(payload, rest, cap);
    }
  }

  lemma ReadsPlain(payload: seq<byte>, rest: seq<byte>, cap: nat)
    ensures ReadPlain(|payload|, payload + rest, cap) == if |payload| <= cap then Some((payload, rest)) else None
  {
    assert (payload + rest)[..|payload|] == payload && (payload + rest)[|payload|..] == rest;
  }

  lemma HeaderBits(fin: bool, opcode: nat, masked: bool, code: nat)
    requires opcode < 16 && code < 128
    ensures (FirstByte(fin, opcode) >= 128) == fin && FirstByte(fin, opcode) % 16 == opcode
    ensures FirstByte(fin, opcode) / 16 % 8 == 0
    ensures (SecondByte(masked, code) >= 128) == masked && SecondByte(masked, code) % 128 == code
  {
  }

  lemma ReadsTail(f: Frame, key: Option<Key>, form: LengthForm, rest: seq<byte>, cap: nat)
    requires FormFits(form, |f.payload|)
    ensures ReadRest(f.fin, f.opcode, key.Some?, LengthCode(form, |f.payload|), Tail(f, key, form) + rest, cap)
         == if (IsControl(f.opcode) ==> f.fin && |f.payload| <= 125) && |f.payload| <= cap
            then Some((f, rest)) else None
  {
    var len, body := |f.payload|, Body(f.payload, key) + rest;
    assert Tail(f, key, form) + rest == ExtendedLength(form, len) + body;
    ReadsLength(form, len, body);
    ReadsBody(f.payload, key, rest, cap);
  }

  /**
   * Reading an encoded frame gives it back and leaves the rest of the stream, in each length form
   * and with any key, exactly when the frame is acceptable and its payload fits the buffer.
   */
  lemma ReadEncoded(f: Frame, key: Option<Key>, form: LengthForm, rest: seq<byte>, cap: nat)
    requires f.opcode < 16 && FormFits(form, |f.payload|)
    ensures Read(Encode(f, key, form) + rest, cap)
         == if Acceptable(f) && |f.payload| <= cap then Some((f, rest)) else None
  {
    var s := Encode(f, key, form) + rest;
    HeaderBits(f.fin, f.opcode, key.Some?, LengthCode(form, |f.payload|));
    assert s[2..] == Tail(f, key, form) + rest;
    ReadsTail(f, key, form, rest, cap);
  }

  /** All that sections 5.1 and 5.2 ask of a frame from a server: not masked, and in the shortest length form. */
  predicate Conforms(f: Frame, key: Option<Key>, form: LengthForm) {
    Acceptable(f) && key.None? && form == MinimalForm(|f.payload|)
  }

  /** The reader takes a frame that does not conform exactly when it is masked or longer in form than it need be. */
  lemma LenientExactly(f: Frame, key: Option<Key>, form: LengthForm, rest: seq<byte>, cap: nat)
    requires f.opcode < 16 && FormFits(form, |f.payload|) && |f.payload| <= cap
    ensures Read(Encode(f, key, form) + rest, cap).Some? && !Conforms(f, key, form)
       <==> Acceptable(f) && (key.Some? || form != MinimalForm(|f.payload|))
    ensures Conforms(f, key, form) ==> Read(Encode(f, key, form) + rest, cap) == Some((f, rest))
  {
    ReadEncoded(f, key, form, rest, cap);
  }

  /** An empty text frame in the 64-bit form is read. */
  lemma LongEmptyText(cap: nat)
    ensures Read([0x81, 127, 0, 0, 0, 0, 0, 0, 0, 0], cap) == Some((Frame(true, 1, []), []))
  {
    var f := Frame(true, 1, []);
    assert ToBig(0, 2) == [0, 0];
    assert ToBig(0, 8) == [0, 0, 0, 0, 0, 0, 0, 0] by { assert ToBig(0, 4) == [0, 0, 0, 0]; }
    assert Encode(f, None, Long) + [] == [0x81, 127, 0, 0, 0, 0, 0, 0, 0, 0];
    ReadEncoded(f, None, Long, [], cap);
  }

  lemma HeaderBytes(b0: byte, b1: byte)
    ensures b0 / 16 % 8 == 0 ==> b0 == FirstByte(b0 >= 128, b0 % 16)
    ensures b1 == SecondByte(b1 >= 128, b1 % 128)
  {
  }

  lemma LengthRead(code: nat, s: seq<byte>) returns (form: LengthForm)
    requires code < 128 && ReadLength(code, s).Some?
    ensures var l := ReadLength(code, s).value;
            FormFits(form, l.0) && code == LengthCode(form, l.0) && s == ExtendedLength(form, l.0) + l.1
  {
    Pow256Values();
    if code == 126 {
      form := Medium;
      FromBigInverse(s[..2]);
    } else if code == 127 {
      form := Long;
      FromBigInverse(s[..8]);
    } else {
      form := Short;
    }
  }

  lemma BodyUnmasked(key: Key, raw: seq<byte>)
    ensures Body(Mask(raw, key), Some(key)) == key + raw
  {
    MaskTwice(raw, key);
  }

  lemma BodyRead(masked: bool, len: nat, s: seq<byte>, cap: nat) returns (key: Option<Key>)
    requires ReadBody(masked, len, s, cap).Some?
    ensures var b := ReadBody(masked, len, s, cap).value;
            key.Some? == masked && |b.0| == len <= cap && s == Body(b.0, key) + b.1
  {
    if masked {
      key := Some(s[..4]);
      var t := s[4..];
      BodyUnmasked(s[..4], t[..len]);
      assert s == (s[..4] + t[..len]) + t[len..];
    } else {
      key := None;
      assert s == s[..len] + s[len..];
    }
  }

  lemma TailRead(fin: bool, opcode: nat, masked: bool, code: nat, s: seq<byte>, cap: nat)
    returns (key: Option<Key>, form: LengthForm)
    requires code < 128 && ReadRest(fin, opcode, masked, code, s, cap).Some?
    ensures var r := ReadRest(fin, opcode, masked, code, s, cap).value;
            && r.0.fin == fin && r.0.opcode == opcode && |r.0.payload| <= cap
            && (IsControl(opcode) ==> fin && |r.0.payload| <= 125)
            && FormFits(form, |r.0.payload|) && code == LengthCode(form, |r.0.payload|) && masked == key.Some?
            && s == Tail(r.0, key, form) + r.1
  {
    var l := ReadLength(code, s).value;
    form := LengthRead(code, s);
    key := BodyRead(masked, l.0, l.1, cap);
    var b := ReadBody(masked, l.0, l.1, cap).value;
    Assoc(ExtendedLength(form, l.0), Body(b.0, key), b.1);
  }

  /** Conversely the reader accepts nothing but encodings of acceptable frames. */
  lemma ReadOnlyEncodings(s: seq<byte>, cap: nat) returns (key: Option<Key>, form: LengthForm)
    requires Read(s, cap).Some?
    ensures var r := Read(s, cap).value;
            && r.0.opcode < 16 && Acceptable(r.0) && |r.0.payload| <= cap && FormFits(form, |r.0.payload|)
            && s == Encode(r.0, key, form) + r.1
  {
    HeaderBytes(s[0], s[1]);
    key, form := TailRead(s[0] >= 128, s[0] % 16, s[1] >= 128, s[1] % 128, s[2..], cap);
    var r := Read(s, cap).value;
    assert s == [s[0], s[1]] + s[2..];
    Assoc([s[0], s[1]], Tail(r.0, key, form), r.1);
  }
}
