/** `strtol` in base 10 with a 64-bit `long`, and decimal output. */
module Strtol {
  import opened Bytes

  const LONG_MAX := 0x7FFF_FFFF_FFFF_FFFF

  predicate IsDigit(c: byte) {
    48 <= c <= 57
  }

  predicate IsSpace(c: byte) {
    9 <= c <= 13 || c == 32
  }

  /** Length of the leading run of digits. */
  function DigitRun(s: CStr): (n: nat)
    ensures n <= |s|
    ensures forall i :: 0 <= i < n ==> IsDigit(s[i])
    ensures n < |s| ==> !IsDigit(s[n])
  {
    if s == [] || !IsDigit(s[0]) then 0 else 1 + DigitRun(s[1..])
  }

  function DigitValue(c: byte): nat
    requires IsDigit(c)
  {
    c - 48
  }

  /** The number a run of digits denotes. */
  function Value(digits: CStr): nat
    requires forall i :: 0 <= i < |digits| ==> IsDigit(digits[i])
  {
    if digits == [] then 0 else Value(digits[..|digits| - 1]) * 10 + DigitValue(digits[|digits| - 1])
  }

  function Saturate(v: nat): (r: nat)
    ensures r <= LONG_MAX
  {
    if v > LONG_MAX then LONG_MAX else v
  }

  function SkipSpace(s: CStr): CStr {
    if s != [] && IsSpace(s[0]) then SkipSpace(s[1..]) else s
  }

  /** None when no digits could be converted. */
  function Parse(s: CStr): Option<int> {
    ParseSigned(SkipSpace(s))
  }

  function ParseSigned(t: CStr): Option<int> {
    if t != [] && (t[0] == 45 || t[0] == 43) then ParseDigits(t[1..], t[0] == 45) else ParseDigits(t, false)
  }

  function ParseDigits(digits: CStr, negative: bool): Option<int> {
    var n := DigitRun(digits);
    if n == 0 then None else Some(Limited(Value(digits[..n]), negative))
  }

  /** Held to the range of a `long`. */
  function Limited(v: nat, negative: bool): int {
    if negative then (if v > LONG_MAX + 1 then -LONG_MAX - 1 else 0 - v) else Saturate(v)
  }

  /** `%ld` of a number that is not negative. */
  function Decimal(n: nat): (s: CStr)
    ensures s != [] && forall i :: 0 <= i < |s| ==> IsDigit(s[i])
  {
    if n < 10 then [48 + n] else Decimal(n / 10) + [48 + n % 10]
  }

  lemma {:induction false} ValueOfDecimal(n: nat)
    ensures Value(Decimal(n)) == n
  {
    if n >= 10 {
      ValueOfDecimal(n / 10);
      assert Decimal(n)[..|Decimal(n)| - 1] == Decimal(n / 10);
    } else {
      assert Decimal(n)[..0] == [];
    }
  }

  /** A printed number parses back to itself, up to the largest `long`. */
  lemma ParseDecimal(n: nat)
    ensures Parse(Decimal(n)) == Some(Saturate(n))
  {
    var s := Decimal(n);
    ValueOfDecimal(n);
    assert IsDigit(s[0]);
    assert DigitRun(s) == |s| && s[..|s|] == s;
  }

  /** A run of digits that does not start with a superfluous zero. */
  predicate IsCanonical(s: CStr) {
    s != [] && (forall i :: 0 <= i < |s| ==> IsDigit(s[i])) && (s[0] == 48 ==> |s| == 1)
  }

  lemma {:induction false} ValuePositive(s: CStr)
    requires IsCanonical(s) && s[0] != 48
    ensures Value(s) > 0
  {
    if |s| > 1 {
      var front := s[..|s| - 1];
      assert front[0] == s[0];
      ValuePositive(front);
    } else {
      assert s[..0] == [];
    }
  }

  lemma DecimalSnoc(n: nat, last: byte)
    requires n > 0 && IsDigit(last)
    ensures Decimal(n * 10 + DigitValue(last)) == Decimal(n) + [last]
  {
    var m := n * 10 + DigitValue(last);
    assert m / 10 == n && m % 10 == DigitValue(last);
  }

  /** Printing a number gives the one canonical run of digits it has. */
  lemma {:induction false} DecimalOfValue(s: CStr)
    requires IsCanonical(s)
    ensures Decimal(Value(s)) == s
  {
    var front, last := s[..|s| - 1], s[|s| - 1];
    assert s == front + [last];
    if front != [] {
      assert front[0] == s[0];
      ValuePositive(front);
      DecimalOfValue(front);
      DecimalSnoc(Value(front), last);
    }
  }

  lemma {:induction false} DecimalIsCanonical(n: nat)
    ensures IsCanonical(Decimal(n)) && (n > 0 ==> Decimal(n)[0] != 48)
  {
    if n >= 10 { DecimalIsCanonical(n / 10); }
  }

  /** A canonical run parses to its value. */
  lemma ParseCanonical(s: CStr)
    requires IsCanonical(s)
    ensures Parse(s) == Some(Saturate(Value(s)))
  {
    ValueOfDecimal(Value(s));
    DecimalOfValue(s);
    ParseDecimal(Value(s));
  }

  lemma {:induction false} DigitRunStops(s: CStr, rest: CStr)
    requires (forall i :: 0 <= i < |s| ==> IsDigit(s[i])) && (rest != [] ==> !IsDigit(rest[0]))
    ensures DigitRun(s + rest) == |s|
  {
    if s != [] {
      assert (s + rest)[1..] == s[1..] + rest;
      DigitRunStops(s[1..], rest);
    } else {
      assert s + rest == rest;
    }
  }

  /** What follows a run of digits changes nothing. */
  lemma ParseLonger(s: CStr, rest: CStr)
    requires IsCanonical(s) && (rest != [] ==> !IsDigit(rest[0]))
    ensures Parse(s + rest) == Parse(s)
  {
    DigitRunStops(s, rest);
    DigitRunStops(s, []);
    assert s + [] == s && s[..|s|] == s && (s + rest)[..|s|] == s;
    assert IsDigit(s[0]) && (s + rest)[0] == s[0];
  }

  lemma ParseBehindSpace(s: CStr, space: byte)
    requires IsSpace(space)
    ensures Parse([space] + s) == Parse(s)
  {
    assert ([space] + s)[1..] == s;
  }

  // ---------------------------------------------------------------- the conversions in numbers

  function Pow10(n: nat): nat {
    if n == 0 then 1 else 10 * Pow10(n - 1)
  }

  /** Each digit counts ten times what the one behind it does. */
  lemma {:induction false} ValueByWeight(d: byte, rest: CStr)
    requires 48 <= d <= 57 && forall i :: 0 <= i < |rest| ==> 48 <= rest[i] <= 57
    ensures Value([d] + rest) == (d - 48) * Pow10(|rest|) + Value(rest)
  {
    var s := [d] + rest;
    if rest == [] {
      assert s[..0] == [];
    } else {
      var n := |rest| - 1;
      assert s[..|s| - 1] == [d] + rest[..n];
      ValueByWeight(d, rest[..n]);
      Tenfold(d - 48, Pow10(n));
    }
  }

  lemma Tenfold(d: nat, p: nat)
    ensures d * p * 10 == d * (10 * p)
  {
  }

  ghost predicate AllDigits(s: CStr) {
    forall i :: 0 <= i < |s| ==> 48 <= s[i] <= 57
  }

  ghost predicate AllSpaces(s: CStr) {
    forall i :: 0 <= i < |s| ==> s[i] in {9, 10, 11, 12, 13, 32}
  }

  /** White space, a sign or none, at least one digit, and no digit behind. */
  ghost predicate IsNumeral(spaces: CStr, sign: CStr, digits: CStr, rest: CStr) {
    && AllSpaces(spaces) && (sign == [] || sign == [43] || sign == [45])
    && digits != [] && AllDigits(digits) && (rest != [] ==> !(48 <= rest[0] <= 57))
  }

  lemma {:induction false} SkipsSpaces(spaces: CStr, s: CStr)
    requires AllSpaces(spaces) && s != [] && s[0] !in {9, 10, 11, 12, 13, 32}
    ensures SkipSpace(spaces + s) == s
  {
    if spaces == [] {
      assert spaces + s == s;
    } else {
      assert (spaces + s)[1..] == spaces[1..] + s;
      SkipsSpaces(spaces[1..], s);
    }
  }

  lemma LimitedInNumbers(v: nat)
    ensures Limited(v, false) == if v > 9223372036854775807 then 9223372036854775807 else v
    ensures Limited(v, true) == if v > 9223372036854775808 then -9223372036854775808 else 0 - v
  {
  }

  lemma ParsesDigits(digits: CStr, rest: CStr, negative: bool)
    requires IsNumeral([], [], digits, rest)
    ensures ParseDigits(digits + rest, negative) == Some(Limited(Value(digits), negative))
  {
    DigitRunStops(digits, rest);
    assert (digits + rest)[..|digits|] == digits;
  }

  lemma ParsesSigned(sign: CStr, t: CStr)
    requires (sign == [] || sign == [43] || sign == [45]) && t != [] && 48 <= t[0] <= 57
    ensures ParseSigned(sign + t) == ParseDigits(t, sign == [45])
  {
    if sign == [] { assert sign + t == t; } else { assert (sign + t)[1..] == t; }
  }

  /** A numeral converts to its value, held to the range of a `long`. */
  lemma ParseNumeral(spaces: CStr, sign: CStr, digits: CStr, rest: CStr)
    requires IsNumeral(spaces, sign, digits, rest)
    ensures var v: int := Value(digits);
            Parse(spaces + sign + digits + rest) == Some(
              if sign == [45] then (if v > 9223372036854775808 then -9223372036854775808 else -v)
              else if v > 9223372036854775807 then 9223372036854775807 else v)
  {
    var t := digits + rest;
    Assoc(spaces + sign, digits, rest);
    Assoc(spaces, sign, t);
    SkipsSpaces(spaces, sign + t);
    ParsesSigned(sign, t);
    ParsesDigits(digits, rest, sign == [45]);
    LimitedInNumbers(Value(digits));
  }

  /** Anything else does not convert. */
  lemma ParseNothing(spaces: CStr, sign: CStr, rest: CStr)
    requires AllSpaces(spaces) && (sign == [43] || sign == [45]) && (rest != [] ==> !(48 <= rest[0] <= 57))
    ensures Parse(spaces + sign + rest) == None
    ensures rest != [] && rest[0] !in {43, 45, 9, 10, 11, 12, 13, 32} ==> Parse(spaces + rest) == None
  {
    var s := sign + rest;
    assert spaces + sign + rest == spaces + s;
    SkipsSpaces(spaces, s);
    assert s[1..] == rest;
    if rest != [] && rest[0] !in {43, 45, 9, 10, 11, 12, 13, 32} { SkipsSpaces(spaces, rest); }
  }
}
