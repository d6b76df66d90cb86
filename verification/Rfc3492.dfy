/**
 * The decoder of RFC 3492: sections 6.1 and 6.2 in the numbers of section 5, written without the
 * encoder of src/network/idn.c so that it can serve as its measure.
 */
module Rfc3492 {
  import opened Bytes

  /** Section 5: letters of either case are 0 to 25, decimal digits 26 to 35. */
  function DigitValue(c: byte): Option<nat> {
    if 97 <= c <= 122 then Some(c - 97)
    else if 65 <= c <= 90 then Some(c - 65)
    else if 48 <= c <= 57 then Some(c - 48 + 26)
    else None
  }

  /** Section 6.2: the digit at position `k` ends the integer if it is below this. */
  function ThresholdAt(k: nat, bias: nat): (t: nat)
    ensures 1 <= t <= 26
  {
    if k <= bias then 1 else if k >= bias + 26 then 26 else k - bias
  }

  function Div(x: nat, p: nat): nat
    requires p > 0
  {
    x / p
  }

  function Mod(x: nat, p: nat): (r: nat)
    requires p > 0
    ensures r < p
  {
    x % p
  }

  /** Section 6.1. */
  function AdaptedBias(delta: nat, points: nat, first: bool): nat
    requires points > 0
  {
    var damped := if first then delta / 700 else delta / 2;
    Divided(damped + Div(damped, points), 0)
  }

  function Divided(delta: nat, k: nat): nat {
    if delta > 455 then Divided(delta / 35, k + 36) else k + 36 * delta / (delta + 38)
  }

  /** A generalized variable-length integer, added to `i` with its digits weighed by `w` and up. */
  function DecodeInt(s: seq<byte>, k: nat, bias: nat, i: nat, w: nat): (r: Option<(nat, seq<byte>)>)
    ensures r.Some? ==> r.value.0 >= i && |r.value.1| < |s|
  {
    if s == [] then None
    else
      match DigitValue(s[0])
      case None => None
      case Some(d) =>
        var t := ThresholdAt(k, bias);
        if d < t then Some((i + d * w, s[1..]))
        else DecodeInt(s[1..], k + 36, bias, i + d * w, w * (36 - t))
  }

  /** The decoder between two deltas: its code point, insertion index, bias and output. */
  datatype Cursor = Cursor(n: nat, i: nat, bias: nat, out: seq<nat>)

  /** The insertion made after a delta has moved the index to `i'`. */
  function Turn(c: Cursor, i': nat): Cursor
    requires i' >= c.i
  {
    var count := |c.out| + 1;
    var at := Mod(i', count);
    var n' := c.n + Div(i', count);
    Cursor(n', at + 1, AdaptedBias(i' - c.i, count, c.i == 0), c.out[..at] + [n'] + c.out[at..])
  }

  function DecodeDeltas(s: seq<byte>, c: Cursor): Option<seq<nat>>
    decreases |s|
  {
    if s == [] then Some(c.out)
    else
      match DecodeInt(s, 36, c.bias, c.i, 1)
      case None => None
      case Some(read) => DecodeDeltas(read.1, Turn(c, read.0))
  }

  /** Index of the last delimiter, or -1. */
  function LastDelimiter(s: seq<byte>): (d: int)
    ensures -1 <= d < |s|
    ensures d >= 0 ==> s[d] == 45
    ensures forall k :: d < k < |s| ==> s[k] != 45
  {
    if s == [] then -1
    else if s[|s| - 1] == 45 then |s| - 1
    else LastDelimiter(s[..|s| - 1])
  }

  /** The decoder before it has read a delta. */
  function Start(basic: seq<byte>): Cursor {
    Cursor(128, 0, 72, basic)
  }

  /** Section 6.2. */
  function Decode(s: seq<byte>): Option<seq<nat>> {
    var d := LastDelimiter(s);
    var basic := if d > 0 then s[..d] else [];
    if exists k :: 0 <= k < |basic| && basic[k] >= 128 then None
    else DecodeDeltas(if d > 0 then s[d + 1..] else s, Start(basic))
  }

  // ---------------------------------------------------------------- the bias in closed form

  function Pow35(i: nat): (p: nat)
    ensures p > 0
  {
    if i == 0 then 1 else 35 * Pow35(i - 1)
  }

  lemma Regroup(p: nat, q: nat, r: nat, u: nat)
    requires r < 35 && u < p
    ensures (q * 35 + r) * p + u == q * (35 * p) + (r * p + u)
    ensures r * p + u < 35 * p
  {
    assert r * p <= 34 * p by { assert (34 - r) * p >= 0; }
  }

  lemma DividedTwice(x: nat, p: nat)
    requires p > 0
    ensures Div(x, p) / 35 == Div(x, 35 * p)
  {
    var y := Div(x, p);
    var q, r, u := y / 35, y % 35, x % p;
    assert x == y * p + u && y == q * 35 + r;
    Regroup(p, q, r, u);
    UniqueQuotient(x, 35 * p, q, r * p + u);
  }

  /** After `i` divisions, with more to come: the loop has got to `x / 35^i`. */
  lemma {:induction false} DividedFrom(x: nat, i: nat)
    requires i > 0 ==> Div(x, Pow35(i - 1)) > 455
    ensures Divided(x, 0) == Divided(Div(x, Pow35(i)), 36 * i)
    decreases i
  {
    if i > 0 {
      if i > 1 { StillLarge(x, i - 1); }
      DividedFrom(x, i - 1);
      DividedTwice(x, Pow35(i - 1));
    }
  }

  lemma StillLarge(x: nat, i: nat)
    requires i > 0 && Div(x, Pow35(i)) > 455
    ensures Div(x, Pow35(i - 1)) > 455
  {
    DividedTwice(x, Pow35(i - 1));
  }

  /** The bias, with `i` the least number of divisions by 35 that brings the damped delta to at most 455. */
  lemma BiasInClosedForm(delta: nat, points: nat, first: bool, s: nat, x: nat, i: nat, y: nat)
    requires points > 0 && s == (if first then delta / 700 else delta / 2) && x == s + Div(s, points)
    requires y == Div(x, Pow35(i)) && y <= 455 && (i > 0 ==> Div(x, Pow35(i - 1)) > 455)
    ensures AdaptedBias(delta, points, first) == 36 * i + 36 * y / (y + 38)
  {
    DividedFrom(x, i);
  }
}
