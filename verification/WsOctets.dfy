/**
 * Frames octet by octet: what src/network/websocket.c:489-672 reads and writes, in numbers, and the
 * examples of RFC 6455, section 5.7.
 */
module WsOctets {
  import opened Bytes
  import opened WsFrame
  import opened WsMessage
  import opened WsReceive
  import opened WsClient

  // ---------------------------------------------------------------- masking

  lemma {:induction false} MaskAt(data: seq<byte>, key: Key, i: nat)
    requires i < |data|
    ensures Mask(data, key)[i] == XorByte(data[i], key[i % 4])
  {
    var last := |data| - 1;
    if i < last { MaskAt(data[..last], key, i); }
  }

  lemma PowersOfTwo()
    ensures Pow2(0) == 1 && Pow2(1) == 2 && Pow2(2) == 4 && Pow2(3) == 8
    ensures Pow2(4) == 16 && Pow2(5) == 32 && Pow2(6) == 64 && Pow2(7) == 128
  {
  }

  lemma ByteBits(a: byte, b: byte, p: nat)
    requires p in {1, 2, 4, 8, 16, 32, 64, 128}
    ensures XorByte(a, b) / p % 2 == if a / p % 2 == b / p % 2 then 0 else 1
  {
    PowersOfTwo();
    var k :| 0 <= k < 8 && Pow2(k) == p;
    XorBit(a, b, k);
    assert Bit(a, k) == a / p % 2 && Bit(b, k) == b / p % 2;
  }

  /** Octet i of the data meets octet i modulo 4 of the key: each bit set there is flipped, no other. */
  lemma MaskBits(data: seq<byte>, key: Key, i: nat, p: nat)
    requires i < |data| && p in {1, 2, 4, 8, 16, 32, 64, 128}
    ensures Mask(data, key)[i] / p % 2 != data[i] / p % 2 <==> key[i % 4] / p % 2 == 1
  {
    MaskAt(data, key, i);
    ByteBits(data[i], key[i % 4], p);
  }

  // ---------------------------------------------------------------- the reader

  function Weighed2(a: nat, b: nat): nat {
    a * 256 + b
  }

  function Weighed8(a: nat, b: nat, c: nat, d: nat, e: nat, f: nat, g: nat, h: nat): nat {
    a * 72057594037927936 + b * 281474976710656 + c * 1099511627776 + d * 4294967296
    + e * 16777216 + f * 65536 + g * 256 + h
  }

  /** The 7-bit code `code` and the octets `ext` behind it stand for a length. */
  predicate IsLength(code: nat, ext: seq<byte>, len: nat) {
    || (code <= 125 && ext == [] && len == code)
    || (code == 126 && |ext| == 2 && len == Weighed2(ext[0], ext[1]))
    || (code == 127 && |ext| == 8
        && len == Weighed8(ext[0], ext[1], ext[2], ext[3], ext[4], ext[5], ext[6], ext[7]))
  }

  lemma FromBigStep(s: seq<byte>, n: nat)
    requires 0 < n <= |s|
    ensures FromBig(s[..0]) == 0 && FromBig(s[..n]) == FromBig(s[..n - 1]) * 256 + s[n - 1]
    ensures s[..|s|] == s
  {
    assert s[..n][..n - 1] == s[..n - 1];
  }

  lemma FromBigOfTwo(s: seq<byte>)
    requires |s| == 2
    ensures FromBig(s) == Weighed2(s[0], s[1])
  {
    FromBigStep(s, 2);
    FromBigStep(s, 1);
  }

  lemma FromBigOfEight(s: seq<byte>)
    requires |s| == 8
    ensures FromBig(s) == Weighed8(s[0], s[1], s[2], s[3], s[4], s[5], s[6], s[7])
  {
    FromBigStep(s, 8);
    FromBigStep(s, 7);
    FromBigStep(s, 6);
    FromBigStep(s, 5);
    FromBigStep(s, 4);
    FromBigStep(s, 3);
    FromBigStep(s, 2);
    FromBigStep(s, 1);
  }

  lemma ReadsLengthOctets(code: nat, ext: seq<byte>, len: nat, rest: seq<byte>)
    requires IsLength(code, ext, len)
    ensures ReadLength(code, ext + rest) == Some((len, rest))
  {
    if code == 126 { FromBigOfTwo(ext); } else if code == 127 { FromBigOfEight(ext); }
    var s := ext + rest;
    assert s[..|ext|] == ext && s[|ext|..] == rest;
  }

  /** FIN and opcode as the first octet of a frame without extensions. */
  function First(fin: bool, opcode: nat): byte
    requires opcode < 16
  {
    if fin then 128 + opcode else opcode
  }

  /** A continuation, text or binary frame, or a whole and short Close, Ping or Pong. */
  predicate IsKnown(fin: bool, opcode: nat, len: nat) {
    opcode in {0, 1, 2} || (opcode in {8, 9, 10} && fin && len <= 125)
  }

  function Second(masked: bool, code: nat): byte
    requires code < 128
  {
    if masked then 128 + code else code
  }

  lemma ReadsHead(fin: bool, opcode: nat, masked: bool, code: nat, tail: seq<byte>, cap: nat)
    requires opcode in {0, 1, 2, 8, 9, 10} && code < 128
    ensures Read([First(fin, opcode), Second(masked, code)] + tail, cap)
         == ReadRest(fin, opcode, masked, code, tail, cap)
  {
    HeaderBits(fin, opcode, masked, code);
    assert First(fin, opcode) == FirstByte(fin, opcode) && Second(masked, code) == SecondByte(masked, code);
    assert ([First(fin, opcode), Second(masked, code)] + tail)[2..] == tail;
  }

  /** Behind a header with a readable length come key and payload, unless the frame breaks the rules of section 5.5. */
  lemma ReadsBehind(fin: bool, opcode: nat, masked: bool, code: nat, ext: seq<byte>, len: nat,
                    tail: seq<byte>, cap: nat)
    requires opcode in {0, 1, 2, 8, 9, 10} && IsLength(code, ext, len)
    ensures var b := ReadBody(masked, len, tail, cap);
            Read([First(fin, opcode), Second(masked, code)] + ext + tail, cap)
              == if IsKnown(fin, opcode, len) && b.Some? then Some((Frame(fin, opcode, b.value.0), b.value.1)) else None
  {
    ReadsHead(fin, opcode, masked, code, ext + tail, cap);
    Assoc([First(fin, opcode), Second(masked, code)], ext, tail);
    ReadsLengthOctets(code, ext, len, tail);
  }

  /** Every unmasked frame with a known opcode is read for what it is, in any length form. */
  lemma ReadsOctets(fin: bool, opcode: nat, code: nat, ext: seq<byte>, payload: seq<byte>, rest: seq<byte>, cap: nat)
    requires IsLength(code, ext, |payload|) && IsKnown(fin, opcode, |payload|) && |payload| <= cap
    ensures Read([First(fin, opcode), code] + ext + payload + rest, cap) == Some((Frame(fin, opcode, payload), rest))
  {
    ReadsBehind(fin, opcode, false, code, ext, |payload|, payload + rest, cap);
    Assoc([First(fin, opcode), code] + ext, payload, rest);
    ReadsPlain(payload, rest, cap);
  }

  /** A masked one likewise, with its payload unmasked. */
  lemma ReadsMaskedOctets(fin: bool, opcode: nat, code: nat, ext: seq<byte>, key: Key, body: seq<byte>,
                          rest: seq<byte>, cap: nat)
    requires IsLength(code, ext, |body|) && IsKnown(fin, opcode, |body|) && |body| <= cap
    ensures Read([First(fin, opcode), 128 + code] + ext + key + body + rest, cap)
         == Some((Frame(fin, opcode, Mask(body, key)), rest))
  {
    var head := [First(fin, opcode), 128 + code] + ext;
    ReadsBehind(fin, opcode, true, code, ext, |body|, key + (body + rest), cap);
    Assoc(head, key, body + rest);
    Assoc(head + key, body, rest);
    ReadsMaskedBody(key, body, rest, cap);
  }

  lemma ReadsMaskedBody(key: Key, body: seq<byte>, rest: seq<byte>, cap: nat)
    requires |body| <= cap
    ensures ReadBody(true, |body|, key + (body + rest), cap) == Some((Mask(body, key), rest))
  {
    var behind := key + (body + rest);
    assert behind[..4] == key && behind[4..] == body + rest;
    ReadsPlain(body, rest, cap);
  }

  /** A frame is refused when one of its reserved bits is set or its opcode is none of the six known. */
  lemma RefusesFirstOctet(s: seq<byte>, cap: nat)
    requires s != []
    requires s[0] / 64 % 2 == 1 || s[0] / 32 % 2 == 1 || s[0] / 16 % 2 == 1 || s[0] % 16 !in {0, 1, 2, 8, 9, 10}
    ensures Read(s, cap) == None
  {
    var b := s[0] / 16;
    assert b / 2 == s[0] / 32 && b / 4 == s[0] / 64;
  }

  /**
   * So is a control frame without FIN, or of more than 125 octets, any frame that does not fit the
   * buffer, and one whose octets have not all arrived when the stream ends.
   */
  lemma RefusesLength(fin: bool, opcode: nat, masked: bool, code: nat, ext: seq<byte>, len: nat,
                      rest: seq<byte>, cap: nat)
    requires opcode in {0, 1, 2, 8, 9, 10} && IsLength(code, ext, len)
    requires || (opcode in {8, 9, 10} && (!fin || len > 125))
             || len > cap
             || |rest| < (if masked then 4 + len else len)
    ensures Read([First(fin, opcode), if masked then 128 + code else code] + ext + rest, cap) == None
  {
    ReadsBehind(fin, opcode, masked, code, ext, len, rest, cap);
  }

  // ---------------------------------------------------------------- the writer

  /** The length octets of a frame of `len` octets: one, three or nine of them, the fewest that can say it. */
  predicate IsShortestLength(code: nat, ext: seq<byte>, len: nat) {
    && IsLength(code, ext, len)
    && (len <= 125 ==> code == len) && (125 < len <= 65535 ==> code == 126) && (65535 < len ==> code == 127)
  }

  lemma ToBigOctets(len: nat)
    ensures len < 65536 ==> Weighed2(ToBig(len, 2)[0], ToBig(len, 2)[1]) == len
    ensures len < 18446744073709551616 ==>
      var e := ToBig(len, 8); Weighed8(e[0], e[1], e[2], e[3], e[4], e[5], e[6], e[7]) == len
  {
    Pow256Values();
    if len < 65536 {
      BigRoundTrip(len, 2);
      FromBigOfTwo(ToBig(len, 2));
    }
    if len < 18446744073709551616 {
      BigRoundTrip(len, 8);
      FromBigOfEight(ToBig(len, 8));
    }
  }

  lemma ShortestLength(len: nat)
    requires len < 18446744073709551616
    ensures IsShortestLength(LengthCode(MinimalForm(len), len), ExtendedLength(MinimalForm(len), len), len)
  {
    ToBigOctets(len);
  }

  /** What the client writes: FIN and opcode, MASK and the shortest length, the key, the masked payload. */
  lemma ClientFrameOctets(opcode: nat, payload: seq<byte>, key: Key) returns (code: byte, ext: seq<byte>)
    requires opcode < 16 && |payload| < 18446744073709551616
    ensures code < 128 && IsShortestLength(code, ext, |payload|)
    ensures ClientFrame(opcode, payload, key) == [128 + opcode, 128 + code] + ext + key + Mask(payload, key)
  {
    var form := MinimalForm(|payload|);
    code, ext := LengthCode(form, |payload|), ExtendedLength(form, |payload|);
    ShortestLength(|payload|);
    var head: seq<byte> := [128 + opcode, 128 + code];
    var body := Mask(payload, key);
    assert ClientFrame(opcode, payload, key) == head + (ext + (key + body));
    Assoc(head, ext, key + body);
    Assoc(head + ext, key, body);
  }

  /** A pong on the wire. */
  lemma PongOctets(x: Sent)
    requires IsPong(x)
    ensures |x.frame.payload| <= 125
    ensures Octets(x) == [138, 128 + |x.frame.payload|] + x.key.value + Mask(x.frame.payload, x.key.value)
  {
    var body := Body(x.frame.payload, x.key);
    assert ExtendedLength(Short, |x.frame.payload|) + body == body;
    Assoc([138, 128 + |x.frame.payload|], x.key.value, Mask(x.frame.payload, x.key.value));
  }

  // ---------------------------------------------------------------- what may be sent

  /** Every frame of a legal split may be sent, if its payload fits 64 KiB. */
  lemma SplitsAreSendable(m: Message, fs: seq<Frame>, i: nat, key: Option<Key>)
    requires Splits(m, fs) && i < |fs| && |fs[i].payload| <= 65536
    ensures Sendable(Sent(fs[i], key, MinimalForm(|fs[i].payload|))) && Sendable(Sent(fs[i], key, Long))
  {
  }

  /** So may every ping and pong of up to 125 octets. */
  lemma ControlsAreSendable(opcode: nat, payload: seq<byte>, key: Option<Key>)
    requires opcode in {9, 10} && |payload| <= 125
    ensures Sendable(Sent(Frame(true, opcode, payload), key, Short))
  {
  }

  // ---------------------------------------------------------------- the receive loop on octets

  lemma ReadsControl(opcode: nat, payload: seq<byte>, rest: seq<byte>)
    requires opcode in {8, 9, 10} && |payload| <= 125
    ensures Read([128 + opcode, |payload|] + payload + rest, WS_MAX_MESSAGE_SIZE)
         == Some((Frame(true, opcode, payload), rest))
  {
    ReadsOctets(true, opcode, |payload|, [], payload, rest, WS_MAX_MESSAGE_SIZE);
    assert [128 + opcode, |payload|] + [] == [128 + opcode, |payload|];
  }

  lemma ReceivesPing(payload: seq<byte>, rest: seq<byte>, a: Assembly)
    requires |payload| <= 125
    ensures var r := Receive(rest, a);
            Receive([137, |payload|] + payload + rest, a) == Received(r.completed, [payload] + r.pongs, r.stop)
  {
    ReadsControl(9, payload, rest);
    ReceiveUnfold([137, |payload|] + payload + rest, a, Frame(true, 9, payload), rest);
  }

  lemma ReceivesPong(payload: seq<byte>, rest: seq<byte>, a: Assembly)
    requires |payload| <= 125
    ensures Receive([138, |payload|] + payload + rest, a) == Receive(rest, a)
  {
    ReadsControl(10, payload, rest);
    ReceiveUnfold([138, |payload|] + payload + rest, a, Frame(true, 10, payload), rest);
  }

  lemma ReceivesClose(payload: seq<byte>, rest: seq<byte>, a: Assembly)
    requires |payload| <= 125
    ensures Receive([136, |payload|] + payload + rest, a) == Received([], [], PeerClosed)
  {
    ReadsControl(8, payload, rest);
    ReceiveUnfold([136, |payload|] + payload + rest, a, Frame(true, 8, payload), rest);
  }

  /** A whole text or binary message, in any length form: taken up to 65536 octets, else the end. */
  lemma ReceivesWhole(opcode: nat, code: nat, ext: seq<byte>, payload: seq<byte>, rest: seq<byte>)
    requires opcode in {1, 2} && IsLength(code, ext, |payload|)
    ensures var s, r := [128 + opcode, code] + ext + payload + rest, Receive(rest, Idle);
            Receive(s, Idle) ==
              if |payload| <= 65536 then Received([Message(opcode, payload)] + r.completed, r.pongs, r.stop)
              else Received([], [], ReadFailed)
  {
    var s := [128 + opcode, code] + ext + payload + rest;
    if |payload| <= 65536 {
      ReadsOctets(true, opcode, code, ext, payload, rest, WS_MAX_MESSAGE_SIZE);
      ReceiveUnfold(s, Idle, Frame(true, opcode, payload), rest);
    } else {
      RefusesLength(true, opcode, false, code, ext, |payload|, payload + rest, WS_MAX_MESSAGE_SIZE);
      Assoc([128 + opcode, code] + ext, payload, rest);
      ReceiveNone(s, Idle);
    }
  }

  lemma ReceiveNone(s: seq<byte>, a: Assembly)
    requires Read(s, WS_MAX_MESSAGE_SIZE) == None
    ensures Receive(s, a) == Received([], [], ReadFailed)
  {
  }

  /** What each frame does to the assembly; a fragmented message may have up to 1048576 octets. */
  lemma AccumulatesInNumbers(opcode: nat, data: seq<byte>, fin: bool, op: nat, payload: seq<byte>)
    requires op in {0, 1, 2}
    ensures op > 0 && fin ==> Accumulate(Idle, Frame(fin, op, payload)) == Complete(Message(op, payload))
    ensures op > 0 && !fin ==>
      Accumulate(Idle, Frame(fin, op, payload)) ==
        if |payload| <= 1048576 then Pending(InProgress(op, payload)) else Failed(Idle)
    ensures op == 0 ==> Accumulate(Idle, Frame(fin, op, payload)) == Failed(Idle)
    ensures op > 0 ==> Accumulate(InProgress(opcode, data), Frame(fin, op, payload)) == Failed(Idle)
    ensures op == 0 ==>
      Accumulate(InProgress(opcode, data), Frame(fin, op, payload)) ==
        if |data| + |payload| > 1048576 then Failed(Idle)
        else if fin then Complete(Message(opcode, data + payload)) else Pending(InProgress(opcode, data + payload))
  {
  }

  const HELLO: seq<byte> := [0x48, 0x65, 0x6c, 0x6c, 0x6f]

  /** The fragmented text message of section 5.7. */
  lemma FragmentedHello(rest: seq<byte>)
    ensures var r := Receive(rest, Idle);
            Receive([0x01, 0x03, 0x48, 0x65, 0x6c, 0x80, 0x02, 0x6c, 0x6f] + rest, Idle)
              == Received([Message(1, HELLO)] + r.completed, r.pongs, r.stop)
  {
    var hel, lo: seq<byte> := [0x48, 0x65, 0x6c], [0x6c, 0x6f];
    var second := [0x80, 0x02] + [] + lo + rest;
    ReadsOctets(false, 1, 3, [], hel, second, WS_MAX_MESSAGE_SIZE);
    ReadsOctets(true, 0, 2, [], lo, rest, WS_MAX_MESSAGE_SIZE);
    assert [0x01, 0x03, 0x48, 0x65, 0x6c, 0x80, 0x02, 0x6c, 0x6f] + rest == [0x01, 0x03] + [] + hel + second;
    assert hel + lo == HELLO;
    assert Receive(second, InProgress(1, hel)) == WithMessage(Message(1, hel + lo), Receive(rest, Idle));
  }

  /** Its frames are a legal split of it. */
  lemma HelloSplits()
    ensures Splits(Message(1, HELLO), [Frame(false, 1, [0x48, 0x65, 0x6c]), Frame(true, 0, [0x6c, 0x6f])])
  {
    var fs := [Frame(false, 1, [0x48, 0x65, 0x6c]), Frame(true, 0, [0x6c, 0x6f])];
    assert fs[1..] == [Frame(true, 0, [0x6c, 0x6f])] && fs[1..][1..] == [];
    assert Payloads(fs[1..]) == [0x6c, 0x6f] + [];
    assert Payloads(fs) == [0x48, 0x65, 0x6c] + [0x6c, 0x6f];
  }

  /** The masked text message of section 5.7, as the client writes it. */
  lemma MaskedHello(hello: seq<byte>, key: Key)
    requires hello == HELLO && key == [0x37, 0xfa, 0x21, 0x3d]
    ensures ClientFrame(1, hello, key) == [0x81, 0x85, 0x37, 0xfa, 0x21, 0x3d, 0x7f, 0x9f, 0x4d, 0x51, 0x58]
  {
    var code, ext := ClientFrameOctets(1, hello, key);
    MaskOfHello(hello, key);
    ShortIsEmpty(code, ext, 5);
    assert [0x81, 0x85] + ext + key == [0x81, 0x85, 0x37, 0xfa, 0x21, 0x3d];
  }

  lemma ShortIsEmpty(code: nat, ext: seq<byte>, len: nat)
    requires IsShortestLength(code, ext, len) && len <= 125
    ensures code == len && ext == []
  {
  }

  /** One more bit on either side. */
  lemma XorUnfold(a: nat, b: nat, a': nat, b': nat)
    requires 2 * a <= a' <= 2 * a + 1 && 2 * b <= b' <= 2 * b + 1
    ensures Xor(a', b') == 2 * Xor(a, b) + (if a' - 2 * a == b' - 2 * b then 0 else 1)
  {
    assert a' / 2 == a && b' / 2 == b;
  }

  lemma MaskedOctet0(data: seq<byte>, key: Key, i: nat)
    requires i < |data| && data[i] == 0x48 && key[i % 4] == 0x37
    ensures Mask(data, key)[i] == 0x7f
  {
    MaskAt(data, key, i);
    XorUnfold(0, 0, 1, 0);
    XorUnfold(1, 0, 2, 1);
    XorUnfold(2, 1, 4, 3);
    XorUnfold(4, 3, 9, 6);
    XorUnfold(9, 6, 18, 13);
    XorUnfold(18, 13, 36, 27);
    XorUnfold(36, 27, 72, 55);
  }

  lemma MaskedOctet1(data: seq<byte>, key: Key, i: nat)
    requires i < |data| && data[i] == 0x65 && key[i % 4] == 0xfa
    ensures Mask(data, key)[i] == 0x9f
  {
    MaskAt(data, key, i);
    XorUnfold(0, 0, 0, 1);
    XorUnfold(0, 1, 1, 3);
    XorUnfold(1, 3, 3, 7);
    XorUnfold(3, 7, 6, 15);
    XorUnfold(6, 15, 12, 31);
    XorUnfold(12, 31, 25, 62);
    XorUnfold(25, 62, 50, 125);
    XorUnfold(50, 125, 101, 250);
  }

  lemma MaskedOctet2(data: seq<byte>, key: Key, i: nat)
    requires i < |data| && data[i] == 0x6c && key[i % 4] == 0x21
    ensures Mask(data, key)[i] == 0x4d
  {
    MaskAt(data, key, i);
    XorUnfold(0, 0, 1, 0);
    XorUnfold(1, 0, 3, 1);
    XorUnfold(3, 1, 6, 2);
    XorUnfold(6, 2, 13, 4);
    XorUnfold(13, 4, 27, 8);
    XorUnfold(27, 8, 54, 16);
    XorUnfold(54, 16, 108, 33);
  }

  lemma MaskedOctet3(data: seq<byte>, key: Key, i: nat)
    requires i < |data| && data[i] == 0x6c && key[i % 4] == 0x3d
    ensures Mask(data, key)[i] == 0x51
  {
    MaskAt(data, key, i);
    XorUnfold(0, 0, 1, 0);
    XorUnfold(1, 0, 3, 1);
    XorUnfold(3, 1, 6, 3);
    XorUnfold(6, 3, 13, 7);
    XorUnfold(13, 7, 27, 15);
    XorUnfold(27, 15, 54, 30);
    XorUnfold(54, 30, 108, 61);
  }

  lemma MaskedOctet4(data: seq<byte>, key: Key, i: nat)
    requires i < |data| && data[i] == 0x6f && key[i % 4] == 0x37
    ensures Mask(data, key)[i] == 0x58
  {
    MaskAt(data, key, i);
    XorUnfold(0, 0, 1, 0);
    XorUnfold(1, 0, 3, 1);
    XorUnfold(3, 1, 6, 3);
    XorUnfold(6, 3, 13, 6);
    XorUnfold(13, 6, 27, 13);
    XorUnfold(27, 13, 55, 27);
    XorUnfold(55, 27, 111, 55);
  }

  lemma MaskOfHelloAt(hello: seq<byte>, key: Key, i: nat)
    requires i < |hello| && hello == HELLO && key == [0x37, 0xfa, 0x21, 0x3d]
    ensures Mask(hello, key)[i] == MASKED_HELLO[i]
  {
    if i == 0 {
      MaskedOctet0(hello, key, i);
    } else if i == 1 {
      MaskedOctet1(hello, key, i);
    } else if i == 2 {
      MaskedOctet2(hello, key, i);
    } else if i == 3 {
      MaskedOctet3(hello, key, i);
    } else {
      MaskedOctet4(hello, key, i);
    }
  }

  const MASKED_HELLO: seq<byte> := [0x7f, 0x9f, 0x4d, 0x51, 0x58]

  lemma MaskOfHello(hello: seq<byte>, key: Key)
    requires hello == HELLO && key == [0x37, 0xfa, 0x21, 0x3d]
    ensures Mask(hello, key) == MASKED_HELLO
  {
    forall i | 0 <= i < |hello| ensures Mask(hello, key)[i] == MASKED_HELLO[i] {
      MaskOfHelloAt(hello, key, i);
    }
  }
}
