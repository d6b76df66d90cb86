/** What the label-wise host conversion promises as a whole. */
module IdnLaws {
  import opened Bytes
  import opened Punycode
  import opened PunycodeRoundTrip
  import opened Rfc3492
  import opened Idn
  import PunycodeEncoder
  import Utf8

  // ---------------------------------------------------------------- splitting at dots

  lemma {:induction false} FirstDotOf(a: seq<byte>, b: seq<byte>)
    requires DOT !in a
    ensures FirstDot(a) == |a| && FirstDot(a + [DOT] + b) == |a|
    ensures (a + [DOT] + b)[..|a|] == a && (a + [DOT] + b)[|a| + 1..] == b
  {
    var s := a + [DOT] + b;
    if a != [] {
      assert s[1..] == a[1..] + [DOT] + b;
      FirstDotOf(a[1..], b);
    }
  }

  function Split(s: seq<byte>): (r: seq<seq<byte>>)
    ensures r != []
    decreases |s|
  {
    var d := FirstDot(s);
    if d == |s| then [s] else [s[..d]] + Split(s[d + 1..])
  }

  predicate ShortLabels(s: seq<byte>)
    decreases |s|
  {
    var d := FirstDot(s);
    d < IDN_MAX_OUTPUT_LEN && (d == |s| || ShortLabels(s[d + 1..]))
  }

  lemma {:induction false} ShortIsShort(s: seq<byte>)
    requires |s| < IDN_MAX_OUTPUT_LEN
    ensures ShortLabels(s)
    decreases |s|
  {
    var d := FirstDot(s);
    if d < |s| { ShortIsShort(s[d + 1..]); }
  }

  lemma {:induction false} ShortJoin(a: seq<byte>, b: seq<byte>)
    requires ShortLabels(a) && ShortLabels(b)
    ensures ShortLabels(a + [DOT] + b)
    decreases |a|
  {
    var d := FirstDot(a);
    var s := a + [DOT] + b;
    if d == |a| {
      assert a[..d] == a;
      FirstDotOf(a, b);
    } else {
      ShortJoin(a[d + 1..], b);
      var tail := a[d + 1..] + [DOT] + b;
      assert s == a[..d] + [DOT] + tail;
      FirstDotOf(a[..d], tail);
    }
  }

  // ---------------------------------------------------------------- laws for every host

  lemma LabelIsAscii(part: seq<byte>, size: nat)
    requires LabelToAscii(part, size).Some?
    ensures IsAscii(LabelToAscii(part, size).value)
  {
    if part != [] && !IsAscii(part) {
      var cps := Utf8.Decode(part, Utf8.IDN_MAX_INPUT_LEN).value;
      EncodeAlphabet(cps);
      var e := Encode(cps);
      assert IsAscii(e) by {
        forall k | 0 <= k < |e| ensures e[k] < 0x80 { assert e[k] in e; }
      }
      assert IsAscii(e + [0]);
    }
  }

  /** Whatever converts, converts to ASCII, in labels that each fit the label buffer. */
  lemma {:induction false} OutputIsAscii(host: seq<byte>)
    requires HostToAscii(host).Some?
    ensures IsAscii(HostToAscii(host).value) && ShortLabels(HostToAscii(host).value)
    decreases |host|
  {
    var d := FirstDot(host);
    var e := LabelToAscii(host[..d], IDN_MAX_OUTPUT_LEN).value;
    LabelIsAscii(host[..d], IDN_MAX_OUTPUT_LEN);
    ShortIsShort(e);
    if d < |host| {
      var rest := HostToAscii(host[d + 1..]).value;
      OutputIsAscii(host[d + 1..]);
      ShortJoin(e, rest);
      AsciiConcat(e + [DOT], rest);
    }
  }

  lemma AsciiConcat(a: seq<byte>, b: seq<byte>)
    ensures IsAscii(a + b) <==> IsAscii(a) && IsAscii(b)
  {
    var s := a + b;
    if IsAscii(s) {
      assert forall k :: 0 <= k < |a| ==> a[k] == s[k];
      assert forall k :: 0 <= k < |b| ==> b[k] == s[|a| + k];
    }
  }

  /** An ASCII host is left alone, unless one of its labels is too long for the label buffer. */
  lemma {:induction false} AsciiUnchanged(host: seq<byte>)
    requires IsAscii(host)
    ensures HostToAscii(host) == if ShortLabels(host) then Some(host) else None
    decreases |host|
  {
    var d := FirstDot(host);
    var part := host[..d];
    assert IsAscii(part);
    if d == |host| {
      assert part == host;
    } else {
      assert IsAscii(host[d + 1..]);
      AsciiUnchanged(host[d + 1..]);
      assert host == part + [DOT] + host[d + 1..];
    }
  }

  /** Converting a converted host changes nothing. */
  lemma Idempotent(host: seq<byte>)
    requires HostToAscii(host).Some?
    ensures HostToAscii(HostToAscii(host).value) == HostToAscii(host)
  {
    OutputIsAscii(host);
    AsciiUnchanged(HostToAscii(host).value);
  }

  // ---------------------------------------------------------------- well-formed hosts

  /** The code points of one label of a well-formed host. */
  ghost predicate IsLabel(cps: seq<nat>) {
    Utf8.AllScalar(cps) && 0 !in cps && DOT !in cps
  }

  ghost predicate AreLabels(labels: seq<seq<nat>>) {
    labels != [] && forall i :: 0 <= i < |labels| ==> IsLabel(labels[i])
  }

  /** The host with these labels, in UTF-8. */
  ghost function HostOf(labels: seq<seq<nat>>): seq<byte>
    requires AreLabels(labels)
  {
    assert IsLabel(labels[0]);
    if |labels| == 1 then Utf8.Encode(labels[0])
    else Utf8.Encode(labels[0]) + [DOT] + HostOf(labels[1..])
  }

  /** The code points of a label that is not ASCII, as far as the encoder looks at them. */
  function Kept(cps: seq<nat>): seq<nat> {
    if |cps| <= Utf8.IDN_MAX_INPUT_LEN then cps else cps[..Utf8.IDN_MAX_INPUT_LEN]
  }

  /** The ASCII form of a label. */
  function AceOf(cps: seq<nat>): seq<byte>
    requires InRange(cps)
  {
    if |Basics(cps)| == |cps| then Basics(cps) else ACE_PREFIX + Encode(Kept(cps))
  }

  /** `out` stands for `cps`: itself when basic, else what follows the prefix decodes to it. */
  ghost predicate Restores(out: seq<byte>, cps: seq<nat>) {
    if AllBasic(cps) then out == cps
    else |out| >= 4 && out[..4] == [120, 110, 45, 45] && Decode(out[4..]) == Some(cps)
  }

  lemma {:induction false} DeltasShorter(s: seq<byte>, c: Cursor)
    ensures DecodeDeltas(s, c).Some? ==> |DecodeDeltas(s, c).value| <= |c.out| + |s|
    decreases |s|
  {
    if s != [] {
      var read := DecodeInt(s, 36, c.bias, c.i, 1);
      if read.Some? { DeltasShorter(read.value.1, Turn(c, read.value.0)); }
    }
  }

  /** A decoder reads at least an octet per code point. */
  lemma DecodedShorter(s: seq<byte>)
    ensures Decode(s).Some? ==> |Decode(s).value| <= |s|
  {
    var d := LastDelimiter(s);
    var basic := if d > 0 then s[..d] else [];
    DeltasShorter(if d > 0 then s[d + 1..] else s, Start(basic));
  }

  /** A label's ASCII form stands for it exactly when it is ASCII already or not cut. */
  lemma AceRestoresIff(cps: seq<nat>)
    requires IsLabel(cps)
    ensures InRange(cps) && (Restores(AceOf(cps), cps) <==> AllBasic(cps) || |cps| <= 1024)
  {
    BasicsAreBasic(cps);
    if !AllBasic(cps) {
      var kept := Kept(cps);
      assert (ACE_PREFIX + Encode(kept))[|ACE_PREFIX|..] == Encode(kept);
      BasicsAreBasic(kept);
      if AllBasic(kept) {
        BasicsEncodeToThemselves(kept);
        DecodedShorter(Encode(kept));
      } else {
        RoundTrip(kept);
      }
    }
  }

  lemma {:induction false} Utf8OfLabel(cps: seq<nat>)
    requires Utf8.AllScalar(cps)
    ensures IsAscii(Utf8.Encode(cps)) <==> AllBasic(cps)
    ensures AllBasic(cps) ==> Utf8.Encode(cps) == cps
    ensures forall c: byte :: c < 0x80 && c !in cps ==> c !in Utf8.Encode(cps)
    ensures cps != [] ==> Utf8.Encode(cps) != []
  {
    if cps != [] {
      var one, rest := Utf8.EncodeOne(cps[0]), Utf8.Encode(cps[1..]);
      Utf8OfLabel(cps[1..]);
      AsciiConcat(one, rest);
      assert cps == [cps[0]] + cps[1..];
      assert if cps[0] < 0x80 then one == [cps[0]] else one[0] >= 0x80;
    }
  }

  /** An encoding holds no NUL and no dot that the code points do not. */
  lemma EncodedLabel(cps: seq<nat>)
    requires InRange(cps) && 0 !in cps && DOT !in cps
    ensures 0 !in Encode(cps) && DOT !in Encode(cps)
  {
    EncodeAlphabet(cps);
  }

  lemma AceOfLabel(cps: seq<nat>)
    requires IsLabel(cps)
    ensures InRange(cps) && 0 !in AceOf(cps) && DOT !in AceOf(cps)
  {
    BasicsAreBasic(cps);
    if |Basics(cps)| != |cps| { EncodedLabel(Kept(cps)); }
  }

  lemma AceLabelConverts(cps: seq<nat>)
    requires IsLabel(cps) && !AllBasic(cps)
    ensures InRange(cps)
    ensures var e := Encode(Kept(cps));
            Ace(Utf8.Encode(cps)) == if |e| < IDN_MAX_OUTPUT_LEN then Some(e) else None
  {
    Utf8.DecodesWellFormed(cps, Utf8.IDN_MAX_INPUT_LEN);
    EncodedLabel(Kept(cps));
    var e := Encode(Kept(cps));
    assert e + [0] + [] == e + [0];
    CStringOf(e, []);
  }

  lemma LabelConverts(cps: seq<nat>)
    requires IsLabel(cps)
    ensures InRange(cps)
    ensures LabelToAscii(Utf8.Encode(cps), IDN_MAX_OUTPUT_LEN)
         == if |AceOf(cps)| < IDN_MAX_OUTPUT_LEN then Some(AceOf(cps)) else None
  {
    Utf8OfLabel(cps);
    BasicsAreBasic(cps);
    if !AllBasic(cps) { AceLabelConverts(cps); }
  }

  /** The label converts and its ASCII form fits the label buffer. */
  ghost predicate Fits(cps: seq<nat>) {
    InRange(cps) && |AceOf(cps)| < IDN_MAX_OUTPUT_LEN
  }

  lemma HostStep(labels: seq<seq<nat>>)
    requires AreLabels(labels) && |labels| > 1
    ensures InRange(labels[0]) && AreLabels(labels[1..])
    ensures HostToAscii(HostOf(labels))
         == if Fits(labels[0]) then Continued(AceOf(labels[0]) + [DOT], HostToAscii(HostOf(labels[1..]))) else None
  {
    assert IsLabel(labels[0]);
    LabelConverts(labels[0]);
    Utf8OfLabel(labels[0]);
    FirstDotOf(Utf8.Encode(labels[0]), HostOf(labels[1..]));
  }

  lemma HostLast(labels: seq<seq<nat>>)
    requires AreLabels(labels) && |labels| == 1
    ensures InRange(labels[0])
    ensures HostToAscii(HostOf(labels)) == if Fits(labels[0]) then Some(AceOf(labels[0])) else None
  {
    assert IsLabel(labels[0]);
    LabelConverts(labels[0]);
    Utf8OfLabel(labels[0]);
    OneLabelHost(Utf8.Encode(labels[0]));
  }

  lemma OneLabelHost(s: seq<byte>)
    requires DOT !in s
    ensures HostToAscii(s) == LabelToAscii(s, IDN_MAX_OUTPUT_LEN)
  {
    FirstDotOf(s, []);
    assert s[..|s|] == s;
  }

  lemma SplitStep(a: seq<byte>, b: seq<byte>)
    requires DOT !in a
    ensures Split(a) == [a] && Split(a + [DOT] + b) == [a] + Split(b)
  {
    FirstDotOf(a, b);
  }

  ghost predicate IsAce(part: seq<byte>, cps: seq<nat>) {
    InRange(cps) && part == AceOf(cps)
  }

  /** Part by part, `parts` are the ASCII forms of the labels. */
  ghost predicate AreAces(parts: seq<seq<byte>>, labels: seq<seq<nat>>) {
    |parts| == |labels| && forall i :: 0 <= i < |labels| ==> IsAce(parts[i], labels[i])
  }

  ghost predicate AllFit(labels: seq<seq<nat>>) {
    forall i :: 0 <= i < |labels| ==> Fits(labels[i])
  }

  lemma AllFitStep(labels: seq<seq<nat>>)
    requires labels != []
    ensures AllFit(labels) <==> Fits(labels[0]) && AllFit(labels[1..])
  {
    assert forall i :: 1 <= i < |labels| ==> labels[i] == labels[1..][i - 1];
  }

  lemma AcesStep(a: seq<byte>, parts: seq<seq<byte>>, labels: seq<seq<nat>>)
    requires labels != [] && InRange(labels[0]) && a == AceOf(labels[0]) && AreAces(parts, labels[1..])
    ensures AreAces([a] + parts, labels)
  {
    var all, later := [a] + parts, labels[1..];
    forall i | 0 <= i < |labels| ensures IsAce(all[i], labels[i]) {
      if i > 0 { assert IsAce(parts[i - 1], later[i - 1]); }
    }
  }

  /**
   * A well-formed host converts exactly when every label's ASCII form fits the label buffer; the
   * result has these forms between the same dots.
   */
  lemma {:induction false} HostConverts(labels: seq<seq<nat>>)
    requires AreLabels(labels)
    ensures var r := HostToAscii(HostOf(labels));
            && (r.Some? <==> AllFit(labels))
            && (r.Some? ==> AreAces(Split(r.value), labels))
  {
    assert IsLabel(labels[0]);
    AceOfLabel(labels[0]);
    AllFitStep(labels);
    var a := AceOf(labels[0]);
    if |labels| == 1 {
      HostLast(labels);
      SplitStep(a, []);
      AcesStep(a, [], labels);
    } else {
      HostStep(labels);
      HostConverts(labels[1..]);
      var r := HostToAscii(HostOf(labels[1..]));
      if r.Some? {
        SplitStep(a, r.value);
        AcesStep(a, Split(r.value), labels);
      }
    }
  }

  /** Each label of a converted host can be read back exactly when it was ASCII or had at most 1024 code points. */
  lemma HostRestoresIff(labels: seq<seq<nat>>)
    requires AreLabels(labels) && HostToAscii(HostOf(labels)).Some?
    ensures var parts := Split(HostToAscii(HostOf(labels)).value);
            && |parts| == |labels|
            && forall i :: 0 <= i < |labels| ==>
                 (Restores(parts[i], labels[i]) <==> AllBasic(labels[i]) || |labels[i]| <= 1024)
  {
    HostConverts(labels);
    var parts := Split(HostToAscii(HostOf(labels)).value);
    forall i | 0 <= i < |labels|
      ensures Restores(parts[i], labels[i]) <==> AllBasic(labels[i]) || |labels[i]| <= Utf8.IDN_MAX_INPUT_LEN
    {
      assert IsLabel(labels[i]) && IsAce(parts[i], labels[i]);
      AceRestoresIff(labels[i]);
    }
  }

  /** A label of at most 185 code points always fits. */
  lemma ShortLabelFits(cps: seq<nat>)
    requires IsLabel(cps) && |cps| <= 185
    ensures Fits(cps)
  {
    BasicsAreBasic(cps);
    PunycodeEncoder.EncodeLength(cps);
  }

  /** So a host of such labels always converts, and every label of the result reads back. */
  lemma ShortLabelsConvert(labels: seq<seq<nat>>)
    requires AreLabels(labels) && forall i :: 0 <= i < |labels| ==> |labels[i]| <= 185
    ensures var r := HostToAscii(HostOf(labels));
            && r.Some? && |Split(r.value)| == |labels|
            && forall i :: 0 <= i < |labels| ==> Restores(Split(r.value)[i], labels[i])
  {
    HostConverts(labels);
    forall i | 0 <= i < |labels| ensures Fits(labels[i]) {
      assert IsLabel(labels[i]);
      ShortLabelFits(labels[i]);
    }
    HostRestoresIff(labels);
  }

  /** A cut seen: 1024 ASCII characters with more behind them come out as if nothing more were there. */
  lemma LongLabelIsCut(cps: seq<nat>)
    requires IsLabel(cps) && |cps| > 1024 && !AllBasic(cps)
    requires AllBasic(cps[..1024])
    ensures LabelToAscii(Utf8.Encode(cps), 2048)
         == Some(ACE_PREFIX + Basics(cps[..1024]))
    ensures Basics(cps[..1024]) == cps[..1024]
  {
    var kept := Kept(cps);
    LabelConverts(cps);
    BasicsAreBasic(cps);
    BasicsAreBasic(kept);
    BasicsEncodeToThemselves(kept);
  }

  /** The same for a label by itself. */
  lemma LabelRestoresIff(cps: seq<nat>)
    requires IsLabel(cps) && LabelToAscii(Utf8.Encode(cps), 2048).Some?
    ensures Restores(LabelToAscii(Utf8.Encode(cps), 2048).value, cps)
       <==> AllBasic(cps) || |cps| <= 1024
  {
    LabelConverts(cps);
    AceRestoresIff(cps);
  }

  // ---------------------------------------------------------------- in numbers

  /** An ASCII label is left as it is up to 2047 characters, and refused from there on. */
  lemma AsciiLabelInNumbers(part: seq<byte>)
    requires forall i :: 0 <= i < |part| ==> part[i] < 128 && part[i] != 46
    ensures HostToAscii(part) == if |part| <= 2047 then Some(part) else None
  {
    assert IsAscii(part) && DOT !in part;
    OneLabelHost(part);
  }

  /** Labels end at full stops and nowhere else, and are converted one by one. */
  lemma HostByLabels(part: seq<byte>, rest: seq<byte>)
    requires 46 !in part
    ensures var a, b := HostToAscii(part), HostToAscii(rest);
            HostToAscii(part + [46] + rest) ==
              if a.Some? && b.Some? then Some(a.value + [46] + b.value) else None
  {
    FirstDotOf(part, rest);
    OneLabelHost(part);
  }

  /** What a label comes to when it is not ASCII: the prefix and what the encoder makes of its code points. */
  lemma LabelInNumbers(part: seq<byte>, cps: seq<nat>)
    requires 46 !in part && 0 !in cps && exists i :: 0 <= i < |part| && part[i] >= 128
    requires Utf8.Decode(part, 1024) == Some(cps)
    ensures InRange(cps)
    ensures HostToAscii(part) ==
              if 4 + |Encode(cps)| <= 2047 then Some([120, 110, 45, 45] + Encode(cps)) else None
  {
    OneLabelHost(part);
    assert !IsAscii(part);
    var e := Encode(cps);
    EncodeAlphabet(cps);
    assert 0 !in e;
    assert e + [0] + [] == e + [0];
    CStringOf(e, []);
  }
}
