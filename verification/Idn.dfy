/** Host conversion label by label, src/network/idn.c:213-305. */
module Idn {
  import opened Bytes
  import opened Punycode
  import opened PunycodeRoundTrip
  import opened PunycodeEncoder
  import Utf8

  const IDN_MAX_OUTPUT_LEN := 2048
  const DOT: byte := 46
  const ACE_PREFIX: seq<byte> := [120, 110, 45, 45]  // "xn--"

  predicate IsAscii(s: seq<byte>) {
    forall k :: 0 <= k < |s| ==> s[k] < 0x80
  }

  /** The octets of a buffer up to its terminator. */
  function CString(s: seq<byte>): (r: seq<byte>)
    ensures r <= s && 0 !in r
  {
    if s == [] || s[0] == 0 then [] else [s[0]] + CString(s[1..])
  }

  lemma {:induction false} CStringOf(s: seq<byte>, rest: seq<byte>)
    requires 0 !in s
    ensures CString(s + [0] + rest) == s
  {
    var t := s + [0] + rest;
    if s != [] {
      assert t[1..] == s[1..] + [0] + rest;
      CStringOf(s[1..], rest);
    }
  }

  /** What the encoder leaves as a string in a buffer of the maximum length. */
  function Ace(part: seq<byte>): Option<seq<byte>> {
    match Utf8.Decode(part, Utf8.IDN_MAX_INPUT_LEN)
    case None => None
    case Some(cps) =>
      var e := Encode(cps);
      if |e| < IDN_MAX_OUTPUT_LEN then Some(CString(e + [0])) else None
  }

  /** A label in ASCII form, if it converts and fits `size` octets with its terminator. */
  function LabelToAscii(part: seq<byte>, size: nat): (r: Option<seq<byte>>)
    ensures r.Some? && size > 0 ==> |r.value| < size
  {
    if part == [] then Some([])
    else if IsAscii(part) then (if |part| < size then Some(part) else None)
    else
      match Ace(part)
      case None => None
      case Some(e) => if |ACE_PREFIX| + |e| + 1 <= size then Some(ACE_PREFIX + e) else None
  }

  function FirstDot(s: seq<byte>): (d: nat)
    ensures d <= |s| && DOT !in s[..d] && (d < |s| ==> s[d] == DOT)
  {
    if s == [] || s[0] == DOT then 0
    else
      var d := 1 + FirstDot(s[1..]);
      assert s[..d] == [s[0]] + s[1..][..d - 1];
      d
  }

  /** The host converted label by label, dots kept. */
  function HostToAscii(host: seq<byte>): Option<seq<byte>>
    decreases |host|
  {
    var d := FirstDot(host);
    match LabelToAscii(host[..d], IDN_MAX_OUTPUT_LEN)
    case None => None
    case Some(e) =>
      if d == |host| then Some(e) else Continued(e + [DOT], HostToAscii(host[d + 1..]))
  }

  /** A conversion that continues after `done`. */
  function Continued(done: seq<byte>, rest: Option<seq<byte>>): Option<seq<byte>> {
    if rest.None? then None else Some(done + rest.value)
  }

  // ---------------------------------------------------------------- the C functions

  lemma {:induction false} CStringAt(s: seq<byte>, i: nat)
    requires i < |s| && s[i] == 0 && 0 !in s[..i]
    ensures CString(s) == s[..i]
  {
    if i > 0 {
      assert s[0] in s[..i];
      assert forall c :: c in s[1..][..i - 1] ==> c in s[..i];
      CStringAt(s[1..], i - 1);
      assert s[..i] == [s[0]] + s[1..][..i - 1];
    }
  }

  /** `strlen`, as the string it delimits. */
  method ReadString(buffer: array<byte>, ghost s: seq<byte>) returns (r: seq<byte>)
    requires |s| < buffer.Length && buffer[..|s| + 1] == s + [0]
    ensures r == CString(s + [0])
  {
    var i: nat := 0;
    assert buffer[|s|] == (s + [0])[|s|];
    while buffer[i] != 0
      invariant i <= |s| && 0 !in buffer[..i]
      decreases |s| - i
    {
      assert buffer[..i + 1] == buffer[..i] + [buffer[i]];
      i := i + 1;
    }
    r := buffer[..i];
    assert (s + [0])[..i] == buffer[..i] && (s + [0])[i] == buffer[i];
    CStringAt(s + [0], i);
  }

  /** `punycode_encode_label` */
  method EncodeLabel(part: seq<byte>, output: array<byte>) returns (rc: int)
    modifies output
    ensures var r := LabelToAscii(part, output.Length);
            if output.Length == 0 then rc == -1
            else if r.None? then rc == -2
            else rc == 0 && output[..|r.value| + 1] == r.value + [0]
  {
    if output.Length == 0 { return -1; }
    if part == [] {
      output[0] := 0;
      return 0;
    }
    var nonAscii := HasNonAscii(part);
    if !nonAscii {
      if |part| >= output.Length { return -2; }
      CopyTo(output, 0, part + [0]);
      return 0;
    }
    if output.Length <= |ACE_PREFIX| { return -2; }
    var encoded := new byte[IDN_MAX_OUTPUT_LEN];
    rc := PunycodeEncode(part, encoded);
    if rc != 0 { return -2; }
    ghost var e := Encode(Utf8.Decode(part, Utf8.IDN_MAX_INPUT_LEN).value);
    var s := ReadString(encoded, e);
    if |ACE_PREFIX| + |s| + 1 > output.Length { return -2; }
    CopyTo(output, 0, ACE_PREFIX + s + [0]);
    return 0;
  }

  method HasNonAscii(s: seq<byte>) returns (found: bool)
    ensures found <==> !IsAscii(s)
  {
    for i := 0 to |s|
      invariant IsAscii(s[..i])
    {
      if s[i] >= 0x80 { return true; }
      assert s[..i + 1] == s[..i] + [s[i]];
    }
    assert s[..|s|] == s;
    return false;
  }

  lemma ContinuedTwice(done: seq<byte>, more: seq<byte>, rest: Option<seq<byte>>)
    ensures Continued(done, Continued(more, rest)) == Continued(done + more, rest)
  {
    if rest.Some? { assert done + (more + rest.value) == (done + more) + rest.value; }
  }

  lemma NoNulInLabel(part: seq<byte>, size: nat)
    requires LabelToAscii(part, size).Some? && 0 !in part
    ensures CString(LabelToAscii(part, size).value + [0]) == LabelToAscii(part, size).value
  {
    var r := LabelToAscii(part, size).value;
    assert r + [0] == r + [0] + [];
    CStringOf(r, []);
  }

  /** One label through the intermediate buffer of the host loop. */
  method ConvertLabel(part: seq<byte>) returns (r: Option<seq<byte>>)
    requires 0 !in part
    ensures r == LabelToAscii(part, IDN_MAX_OUTPUT_LEN)
  {
    var encoded := new byte[IDN_MAX_OUTPUT_LEN];
    var rc := EncodeLabel(part, encoded);
    if rc != 0 { return None; }
    NoNulInLabel(part, IDN_MAX_OUTPUT_LEN);
    var s := ReadString(encoded, LabelToAscii(part, IDN_MAX_OUTPUT_LEN).value);
    r := Some(s);
  }

  /** `idn_to_ascii`: -2 exactly when a label does not convert or the whole does not fit. */
  method ToAscii(host: seq<byte>, output: array<byte>) returns (rc: int)
    requires 0 !in host
    modifies output
    ensures var r := HostToAscii(host);
            if output.Length == 0 then rc == -1
            else if r.None? || |r.value| >= output.Length then rc == -2
            else rc == 0 && output[..|r.value| + 1] == r.value + [0]
  {
    if output.Length == 0 { return -1; }
    if host == [] {
      output[0] := 0;
      return 0;
    }
    var ok, out: nat := AppendLabels(host, output);
    if !ok { return -2; }
    output[out] := 0;
    assert output[..out + 1] == output[..out] + [0];
    return 0;
  }

  /** The host loop; `rest` is what the source's pointer still has ahead of it. */
  method AppendLabels(host: seq<byte>, output: array<byte>) returns (ok: bool, out: nat)
    requires 0 !in host && output.Length > 0
    modifies output
    ensures ok <==> HostToAscii(host).Some? && |HostToAscii(host).value| < output.Length
    ensures ok ==> out < output.Length && output[..out] == HostToAscii(host).value
  {
    var rest := host;
    out := 0;
    ghost var all := HostToAscii(host);
    assert all.Some? ==> output[..0] + all.value == all.value;
    while true
      invariant out < output.Length && 0 !in rest
      invariant all == Continued(output[..out], HostToAscii(rest))
      decreases |rest|
    {
      ghost var done := output[..out];
      var d := FirstDot(rest);
      var e := ConvertLabel(rest[..d]);
      if e.None? || out + |e.value| >= output.Length { return false, out; }
      ContinuedTwice(done, e.value + [DOT], HostToAscii(if d < |rest| then rest[d + 1..] else []));
      CopyTo(output, out, e.value);
      out := out + |e.value|;
      if d == |rest| { return true, out; }
      if out + 1 >= output.Length { return false, out; }
      output[out] := DOT;
      assert output[..out + 1] == done + (e.value + [DOT]);
      out := out + 1;
      rest := rest[d + 1..];
    }
  }
}
