/** `update_compare_versions` (src/update/update.c:211-260) as an order on token sequences. */
module VersionCompare {
  import opened Bytes
  import opened Strtol

  /** A digit run as the number it denotes, or any other character by itself. */
  datatype Token = Num(n: nat) | Chr(c: byte)

  function Tokens(s: CStr): seq<Token>
    decreases |s|
  {
    if s == [] then []
    else if IsDigit(s[0]) then
      var n := DigitRun(s);
      [Num(Value(s[..n]))] + Tokens(s[n..])
    else [Chr(s[0])] + Tokens(s[1..])
  }

  /** A token as `strtol` reads it. */
  function Clamp(t: Token): Token {
    if t.Num? then Num(Saturate(t.n)) else t
  }

  function Clamped(ts: seq<Token>): seq<Token> {
    if ts == [] then [] else [Clamp(ts[0])] + Clamped(ts[1..])
  }

  /** The tokens the comparison works on. */
  function ReadTokens(s: CStr): seq<Token> {
    Clamped(Tokens(s))
  }

  /** One leading 'v' does not count. */
  function Strip(s: CStr): CStr {
    if s != [] && s[0] == 118 then s[1..] else s
  }

  /** A `char` as the comparison sees it; whether plain `char` is signed depends on the platform. */
  function Rank(c: byte, signed: bool): int {
    if signed && c >= 128 then c - 256 else c
  }

  function Sign(x: int): (r: int)
    ensures -1 <= r <= 1
  {
    if x < 0 then -1 else if x > 0 then 1 else 0
  }

  /** Numbers by value, characters by rank; against a character every digit ranks alike. */
  function CompareTokens(a: Token, b: Token, signed: bool): int {
    match (a, b)
    case (Num(m), Num(n)) => Sign(m - n)
    case (Chr(c), Chr(d)) => Sign(Rank(c, signed) - Rank(d, signed))
    case (Num(_), Chr(d)) => if Rank(d, signed) < 48 then 1 else -1
    case (Chr(c), Num(_)) => if Rank(c, signed) < 48 then -1 else 1
  }

  /** Lexicographic order; a proper prefix comes first. */
  function Lex(a: seq<Token>, b: seq<Token>, signed: bool): (r: int)
    ensures -1 <= r <= 1
  {
    if a == [] then (if b == [] then 0 else -1)
    else if b == [] then 1
    else
      var first := CompareTokens(a[0], b[0], signed);
      if first != 0 then Sign(first) else Lex(a[1..], b[1..], signed)
  }

  function Compare(v1: CStr, v2: CStr, signed: bool): int {
    Lex(ReadTokens(Strip(v1)), ReadTokens(Strip(v2)), signed)
  }

  lemma ClampedCons(t: Token, ts: seq<Token>)
    ensures Clamped([t] + ts) == [Clamp(t)] + Clamped(ts)
  {
    assert ([t] + ts)[1..] == ts;
  }

  /** What a nonempty string is read as. */
  lemma ReadStep(s: CStr)
    requires s != []
    ensures var n := DigitRun(s);
            ReadTokens(s) ==
              if IsDigit(s[0]) then [Num(Saturate(Value(s[..n])))] + ReadTokens(s[n..])
              else [Chr(s[0])] + ReadTokens(s[1..])
  {
    if IsDigit(s[0]) {
      ClampedCons(Num(Value(s[..DigitRun(s)])), Tokens(s[DigitRun(s)..]));
    } else {
      ClampedCons(Chr(s[0]), Tokens(s[1..]));
    }
  }

  // ---------------------------------------------------------------- the C function

  /** `strtol` at a digit: the value of the run and what follows it. */
  method TakeNumber(s: CStr) returns (n: nat, rest: CStr)
    requires s != [] && IsDigit(s[0])
    ensures ReadTokens(s) == [Num(n)] + ReadTokens(rest) && |rest| < |s|
  {
    ReadStep(s);
    var run := DigitRun(s);
    n, rest := Saturate(Value(s[..run])), s[run..];
  }

  method CompareVersions(v1: CStr, v2: CStr, signed: bool) returns (r: int)
    ensures r == Compare(v1, v2, signed)
  {
    var s, t := Strip(v1), Strip(v2);
    while s != [] && t != []
      invariant Lex(ReadTokens(s), ReadTokens(t), signed) == Compare(v1, v2, signed)
      decreases |s|
    {
      if IsDigit(s[0]) && IsDigit(t[0]) {
        var m, s' := TakeNumber(s);
        var n, t' := TakeNumber(t);
        LexCons(Num(m), ReadTokens(s'), Num(n), ReadTokens(t'), signed);
        s, t := s', t';
        if m < n { return -1; }
        if m > n { return 1; }
      } else {
        MixedHeads(s, t, signed);
        if Rank(s[0], signed) < Rank(t[0], signed) { return -1; }
        if Rank(s[0], signed) > Rank(t[0], signed) { return 1; }
        s, t := s[1..], t[1..];
      }
    }
    if s != [] { ReadStep(s); }
    if t != [] { ReadStep(t); }
    // What is left over after a '.' or '-' is looked at, but decides nothing.
    if s != [] { return 1; }
    if t != [] { return -1; }
    return 0;
  }

  lemma LexCons(x: Token, a: seq<Token>, y: Token, b: seq<Token>, signed: bool)
    ensures Lex([x] + a, [y] + b, signed) ==
            if CompareTokens(x, y, signed) != 0 then Sign(CompareTokens(x, y, signed)) else Lex(a, b, signed)
  {
    assert ([x] + a)[1..] == a && ([y] + b)[1..] == b;
  }

  /** Comparing first characters decides as the first tokens do, unless both start numbers. */
  lemma MixedHeads(s: CStr, t: CStr, signed: bool)
    requires s != [] && t != [] && !(IsDigit(s[0]) && IsDigit(t[0]))
    ensures var x, y := Rank(s[0], signed), Rank(t[0], signed);
            Lex(ReadTokens(s), ReadTokens(t), signed) ==
              if x != y then Sign(x - y) else Lex(ReadTokens(s[1..]), ReadTokens(t[1..]), signed)
  {
    ReadStep(s);
    ReadStep(t);
    var a := if IsDigit(s[0]) then ReadTokens(s[DigitRun(s)..]) else ReadTokens(s[1..]);
    var b := if IsDigit(t[0]) then ReadTokens(t[DigitRun(t)..]) else ReadTokens(t[1..]);
    LexCons(ReadTokens(s)[0], a, ReadTokens(t)[0], b, signed);
  }

  // ---------------------------------------------------------------- order laws

  /** Characters that are no digits, so that no token has two readings. */
  predicate IsToken(t: Token) {
    t.Chr? ==> !IsDigit(t.c)
  }

  lemma {:induction false} TokensAreTokens(s: CStr)
    ensures forall i :: 0 <= i < |Tokens(s)| ==> IsToken(Tokens(s)[i])
    decreases |s|
  {
    if s != [] {
      if IsDigit(s[0]) { TokensAreTokens(s[DigitRun(s)..]); } else { TokensAreTokens(s[1..]); }
    }
  }

  lemma {:induction false} ClampedAreTokens(ts: seq<Token>)
    requires AllTokens(ts)
    ensures AllTokens(Clamped(ts))
  {
    if ts != [] {
      assert IsToken(ts[0]) && AllTokens(ts[1..]);
      ClampedAreTokens(ts[1..]);
    }
  }

  lemma ReadAreTokens(s: CStr)
    ensures AllTokens(ReadTokens(s))
  {
    TokensAreTokens(s);
    ClampedAreTokens(Tokens(s));
  }

  lemma {:induction false} LexZeroIff(a: seq<Token>, b: seq<Token>, signed: bool)
    ensures Lex(a, b, signed) == 0 <==> a == b
  {
    if a != [] && b != [] {
      LexZeroIff(a[1..], b[1..], signed);
      assert a == [a[0]] + a[1..] && b == [b[0]] + b[1..];
    }
  }

  lemma {:induction false} LexFlips(a: seq<Token>, b: seq<Token>, signed: bool)
    ensures Lex(a, b, signed) == -Lex(b, a, signed)
  {
    if a != [] && b != [] { LexFlips(a[1..], b[1..], signed); }
  }

  ghost predicate AllTokens(a: seq<Token>) {
    forall i :: 0 <= i < |a| ==> IsToken(a[i])
  }

  lemma {:induction false} LexTransitive(a: seq<Token>, b: seq<Token>, c: seq<Token>, signed: bool)
    requires AllTokens(a) && AllTokens(b) && AllTokens(c)
    requires Lex(a, b, signed) <= 0 && Lex(b, c, signed) <= 0
    ensures Lex(a, c, signed) <= 0
  {
    if a != [] && b != [] && c != [] {
      TokensTransitive(a[0], b[0], c[0], signed);
      if a[0] == b[0] == c[0] { LexTransitive(a[1..], b[1..], c[1..], signed); }
    }
  }

  lemma TokensTransitive(x: Token, y: Token, z: Token, signed: bool)
    requires IsToken(x) && IsToken(y) && IsToken(z)
    ensures CompareTokens(x, y, signed) == 0 <==> x == y
    ensures CompareTokens(y, z, signed) == 0 <==> y == z
    ensures CompareTokens(x, y, signed) <= 0 && CompareTokens(y, z, signed) <= 0 ==>
              CompareTokens(x, z, signed) <= 0 && (CompareTokens(x, z, signed) == 0 ==> x == y == z)
  {
  }

  /** A total preorder on all strings. */
  lemma VersionOrder(v1: CStr, v2: CStr, v3: CStr, signed: bool)
    ensures Compare(v1, v1, signed) == 0
    ensures Compare(v1, v2, signed) == -Compare(v2, v1, signed)
    ensures Compare(v1, v2, signed) <= 0 && Compare(v2, v3, signed) <= 0 ==> Compare(v1, v3, signed) <= 0
  {
    var a, b, c := ReadTokens(Strip(v1)), ReadTokens(Strip(v2)), ReadTokens(Strip(v3));
    LexZeroIff(a, a, signed);
    LexFlips(a, b, signed);
    ReadAreTokens(Strip(v1));
    ReadAreTokens(Strip(v2));
    ReadAreTokens(Strip(v3));
    if Lex(a, b, signed) <= 0 && Lex(b, c, signed) <= 0 { LexTransitive(a, b, c, signed); }
  }

  // ---------------------------------------------------------------- numbers too large for a long

  /** Two different numbers that both read as LONG_MAX. */
  predicate Blurred(x: Token, y: Token) {
    x != y && x.Num? && y.Num? && x.n >= LONG_MAX && y.n >= LONG_MAX
  }

  /** Index of the first difference, or the length of the shorter sequence. */
  function FirstDifference(a: seq<Token>, b: seq<Token>): (d: nat)
    ensures d <= |a| && d <= |b| && a[..d] == b[..d]
    ensures d < |a| && d < |b| ==> a[d] != b[d]
  {
    if a == [] || b == [] || a[0] != b[0] then 0
    else
      var d := 1 + FirstDifference(a[1..], b[1..]);
      assert a[..d] == [a[0]] + a[1..][..d - 1] && b[..d] == [b[0]] + b[1..][..d - 1];
      d
  }

  lemma ClampCompare(x: Token, y: Token, signed: bool)
    ensures CompareTokens(Clamp(x), Clamp(y), signed) == if Blurred(x, y) then 0 else CompareTokens(x, y, signed)
  {
  }

  /**
   * The comparison is the order on the numbers themselves up to the first difference; if that is
   * between two numbers which both reach LONG_MAX it is passed over, and what follows decides.
   */
  lemma {:induction false} ClampedLex(a: seq<Token>, b: seq<Token>, signed: bool)
    ensures var d := FirstDifference(a, b);
            Lex(Clamped(a), Clamped(b), signed) ==
              if d < |a| && d < |b| && Blurred(a[d], b[d])
              then Lex(Clamped(a[d + 1..]), Clamped(b[d + 1..]), signed)
              else Lex(a, b, signed)
  {
    if a != [] && b != [] {
      ClampCompare(a[0], b[0], signed);
      LexCons(Clamp(a[0]), Clamped(a[1..]), Clamp(b[0]), Clamped(b[1..]), signed);
      if a[0] == b[0] {
        ClampedLex(a[1..], b[1..], signed);
        var d := FirstDifference(a, b);
        if d < |a| && d < |b| { assert a[1..][d..] == a[d + 1..] && b[1..][d..] == b[d + 1..]; }
      }
    }
  }

  ghost predicate AllSmall(ts: seq<Token>) {
    forall i :: 0 <= i < |ts| && ts[i].Num? ==> ts[i].n <= LONG_MAX
  }

  /** The order on the numbers themselves. */
  function Exact(v1: CStr, v2: CStr, signed: bool): int {
    Lex(Tokens(Strip(v1)), Tokens(Strip(v2)), signed)
  }

  /**
   * The comparison orders the numbers themselves, except when the first difference is between two
   * that both reach LONG_MAX; then it agrees exactly when what follows happens to fall the same way.
   */
  lemma CompareExactIff(v1: CStr, v2: CStr, signed: bool)
    ensures var a, b := Tokens(Strip(v1)), Tokens(Strip(v2));
            var d := FirstDifference(a, b);
            Compare(v1, v2, signed) == Exact(v1, v2, signed) <==>
              (d < |a| && d < |b| && Blurred(a[d], b[d]) ==>
                Lex(Clamped(a[d + 1..]), Clamped(b[d + 1..]), signed) == Sign(a[d].n - b[d].n))
    ensures AllSmall(Tokens(Strip(v1))) && AllSmall(Tokens(Strip(v2))) ==>
              Compare(v1, v2, signed) == Exact(v1, v2, signed)
  {
    var a, b := Tokens(Strip(v1)), Tokens(Strip(v2));
    ClampedLex(a, b, signed);
    LexAtDifference(a, b, signed);
  }

  lemma {:induction false} LexAtDifference(a: seq<Token>, b: seq<Token>, signed: bool)
    ensures var d := FirstDifference(a, b);
            d < |a| && d < |b| && a[d].Num? && b[d].Num? ==> Lex(a, b, signed) == Sign(a[d].n - b[d].n)
  {
    if a != [] && b != [] && a[0] == b[0] { LexAtDifference(a[1..], b[1..], signed); }
  }

  /** The same tokens, but for numbers that both reach LONG_MAX. */
  ghost predicate Alike(a: seq<Token>, b: seq<Token>) {
    |a| == |b| && forall i :: 0 <= i < |a| ==> a[i] == b[i] || Blurred(a[i], b[i])
  }

  lemma {:induction false} ClampedSameIff(a: seq<Token>, b: seq<Token>)
    ensures Clamped(a) == Clamped(b) <==> Alike(a, b)
  {
    if a != [] && b != [] {
      var a', b' := Clamped(a[1..]), Clamped(b[1..]);
      ClampedSameIff(a[1..], b[1..]);
      assert Clamped(a)[1..] == a' && Clamped(b)[1..] == b';
      assert Clamp(a[0]) == Clamp(b[0]) <==> a[0] == b[0] || Blurred(a[0], b[0]);
      if Alike(a[1..], b[1..]) {
        assert forall i :: 1 <= i < |a| ==> a[i] == a[1..][i - 1] && b[i] == b[1..][i - 1];
      }
      if Alike(a, b) {
        assert forall i :: 0 <= i < |a| - 1 ==> a[1..][i] == a[i + 1] && b[1..][i] == b[i + 1];
      }
    }
  }

  /** Versions compare equal exactly when they are the same tokens, but for numbers that both reach LONG_MAX. */
  lemma EqualIff(v1: CStr, v2: CStr, signed: bool)
    ensures Compare(v1, v2, signed) == 0 <==> Alike(Tokens(Strip(v1)), Tokens(Strip(v2)))
  {
    LexZeroIff(ReadTokens(Strip(v1)), ReadTokens(Strip(v2)), signed);
    ClampedSameIff(Tokens(Strip(v1)), Tokens(Strip(v2)));
  }

  /** Any two numbers from LONG_MAX on are taken for the same version. */
  lemma LargeNumbersTie(m: nat, n: nat, signed: bool)
    requires m >= LONG_MAX && n >= LONG_MAX
    ensures Compare(Decimal(m), Decimal(n), signed) == 0
    ensures Exact(Decimal(m), Decimal(n), signed) == Sign(m - n)
  {
    OneNumber(m);
    OneNumber(n);
    EqualIff(Decimal(m), Decimal(n), signed);
    LexCons(Num(m), [], Num(n), [], signed);
  }

  lemma OneNumber(n: nat)
    ensures Strip(Decimal(n)) == Decimal(n) && Tokens(Decimal(n)) == [Num(n)]
  {
    var s := Decimal(n);
    ValueOfDecimal(n);
    assert IsDigit(s[0]);
    assert DigitRun(s) == |s| && s[..|s|] == s && s[|s|..] == [];
  }

  // ---------------------------------------------------------------- the comparison octet by octet

  // With a 'v' in front of both, nothing else is taken off; so these laws say what every comparison comes to.

  function V(s: CStr): CStr {
    [118] + s
  }

  lemma StripV(s: CStr)
    ensures Strip(V(s)) == s
  {
  }

  /** A 'v' in front makes no difference unless there is one already: one is taken off, no more. */
  lemma LeadingV(s: CStr, t: CStr, signed: bool)
    requires s != [] ==> s[0] != 118
    ensures Compare(V(s), t, signed) == Compare(s, t, signed) && Compare(t, V(s), signed) == Compare(t, s, signed)
  {
    StripV(s);
  }

  /** What runs out first is less. */
  lemma CompareEnds(s: CStr, signed: bool)
    ensures Compare(V([]), V([]), signed) == 0
    ensures s != [] ==> Compare(V([]), V(s), signed) == -1 && Compare(V(s), V([]), signed) == 1
  {
    StripV(s);
    StripV([]);
    if s != [] { ReadStep(s); }
  }

  /** Unless both start with a digit, the first characters decide; 'v' is 118 there as anywhere. */
  lemma CompareCharacters(c: byte, s: CStr, d: byte, t: CStr, signed: bool)
    requires !(48 <= c <= 57 && 48 <= d <= 57)
    ensures var x := if signed && c >= 128 then c - 256 else c;
            var y := if signed && d >= 128 then d - 256 else d;
            && (x < y ==> Compare(V([c] + s), V([d] + t), signed) == -1)
            && (x > y ==> Compare(V([c] + s), V([d] + t), signed) == 1)
            && (x == y ==> Compare(V([c] + s), V([d] + t), signed) == Compare(V(s), V(t), signed))
  {
    StripV([c] + s);
    StripV([d] + t);
    StripV(s);
    StripV(t);
    MixedHeads([c] + s, [d] + t, signed);
    assert ([c] + s)[1..] == s && ([d] + t)[1..] == t;
  }

  lemma ReadNumber(a: CStr, s: CStr)
    requires a != [] && (forall i :: 0 <= i < |a| ==> 48 <= a[i] <= 57) && (s != [] ==> !(48 <= s[0] <= 57))
    ensures ReadTokens(a + s) == [Num(Saturate(Value(a)))] + ReadTokens(s)
  {
    DigitRunStops(a, s);
    ReadStep(a + s);
    assert (a + s)[..|a|] == a && (a + s)[|a|..] == s;
  }

  /** Two runs of digits decide by their values, held to the range of a `long`; equal ones leave it to what follows. */
  lemma CompareNumbers(a: CStr, s: CStr, b: CStr, t: CStr, signed: bool)
    requires a != [] && (forall i :: 0 <= i < |a| ==> 48 <= a[i] <= 57) && (s != [] ==> !(48 <= s[0] <= 57))
    requires b != [] && (forall i :: 0 <= i < |b| ==> 48 <= b[i] <= 57) && (t != [] ==> !(48 <= t[0] <= 57))
    ensures var x := if Value(a) > 9223372036854775807 then 9223372036854775807 else Value(a);
            var y := if Value(b) > 9223372036854775807 then 9223372036854775807 else Value(b);
            && (x < y ==> Compare(V(a + s), V(b + t), signed) == -1)
            && (x > y ==> Compare(V(a + s), V(b + t), signed) == 1)
            && (x == y ==> Compare(V(a + s), V(b + t), signed) == Compare(V(s), V(t), signed))
  {
    StripV(a + s);
    StripV(b + t);
    StripV(s);
    StripV(t);
    ReadNumber(a, s);
    ReadNumber(b, t);
    LexCons(Num(Saturate(Value(a))), ReadTokens(s), Num(Saturate(Value(b))), ReadTokens(t), signed);
  }
}
