/** Octets as the C code sees them: integers, with the bit operations it needs spelled out. */
module Bytes {

  type byte = x: int | 0 <= x < 256

  /** The contents of a NUL-terminated string. */
  type CStr = seq<byte>

  const INT_MAX := 0x7FFF_FFFF

  /** A C `int`. */
  type int32 = x: int | -INT_MAX - 1 <= x <= INT_MAX

  /** Conversion of a wider integer to a 32-bit `int`: the one that is equal modulo 2^32. */
  function ToInt(x: int): (r: int32)
    ensures (x - r) % 4294967296 == 0
  {
    var low := x % 0x1_0000_0000;
    if low > INT_MAX then low - 0x1_0000_0000 else low
  }

  lemma ToIntExact(x: nat)
    requires x <= INT_MAX
    ensures ToInt(x) == x
  {
  }

  datatype Option<+T> = None | Some(value: T)

  /** `a` is the end of `b`. */
  predicate IsSuffix<T(==)>(a: seq<T>, b: seq<T>) {
    |a| <= |b| && b[|b| - |a|..] == a
  }

  /** Exclusive or of two octets, one bit at a time. */
  function Xor(a: nat, b: nat): nat
    decreases a + b
  {
    if a == 0 && b == 0 then 0
    else 2 * Xor(a / 2, b / 2) + (if a % 2 == b % 2 then 0 else 1)
  }

  /** XOR stays within `bits` bits, which is what makes masking an octet operation. */
  lemma {:induction false} XorBounded(a: nat, b: nat, bound: nat)
    requires IsPowerOfTwo(bound) && a < bound && b < bound
    ensures Xor(a, b) < bound
    decreases a + b
  {
    if bound > 1 && (a != 0 || b != 0) {
      XorBounded(a / 2, b / 2, bound / 2);
    }
  }

  predicate IsPowerOfTwo(n: nat) {
    n == 1 || (n > 1 && n % 2 == 0 && IsPowerOfTwo(n / 2))
  }

  function XorByte(a: byte, b: byte): (r: byte) {
    assert IsPowerOfTwo(256) by {
      assert IsPowerOfTwo(1) && IsPowerOfTwo(2) && IsPowerOfTwo(4) && IsPowerOfTwo(8);
      assert IsPowerOfTwo(16) && IsPowerOfTwo(32) && IsPowerOfTwo(64) && IsPowerOfTwo(128);
    }
    XorBounded(a, b, 256);
    Xor(a, b)
  }

  function Pow2(b: nat): (p: nat)
    ensures p > 0
  {
    if b == 0 then 1 else 2 * Pow2(b - 1)
  }

  function Bit(x: nat, b: nat): nat {
    x / Pow2(b) % 2
  }

  lemma UniqueQuotient(x: nat, d: nat, q: nat, r: nat)
    requires x == q * d + r && r < d
    ensures x / d == q && x % d == r
  {
    var e := x / d - q;
    assert e * d == r - x % d;
  }

  lemma HalfOf(x: nat, p: nat)
    requires p > 0
    ensures x / (2 * p) == x / 2 / p
  {
    var q, r := x / 2 / p, x / 2 % p;
    assert x / 2 == q * p + r;
    UniqueQuotient(x, 2 * p, q, 2 * r + x % 2);
  }

  /** Exclusive or is what its name says, bit by bit. */
  lemma {:induction false} XorBit(a: nat, b: nat, k: nat)
    ensures Bit(Xor(a, b), k) == if Bit(a, k) == Bit(b, k) then 0 else 1
    decreases k
  {
    if k > 0 {
      HalfOf(a, Pow2(k - 1));
      HalfOf(b, Pow2(k - 1));
      HalfOf(Xor(a, b), Pow2(k - 1));
      assert Xor(a, b) / 2 == Xor(a / 2, b / 2);
      XorBit(a / 2, b / 2, k - 1);
    }
  }

  /** Masking twice with the same octet restores the original one. */
  lemma {:induction false} XorTwice(a: nat, b: nat)
    ensures Xor(Xor(a, b), b) == a
    decreases a + b
  {
    if a != 0 || b != 0 {
      XorTwice(a / 2, b / 2);
      var x := Xor(a, b);
      assert x / 2 == Xor(a / 2, b / 2);
    }
  }

  lemma Assoc(a: seq<byte>, b: seq<byte>, c: seq<byte>)
    ensures a + (b + c) == a + b + c
  {
  }

  /** `memcpy` of `s` into a buffer. */
  method CopyTo(output: array<byte>, at: nat, s: seq<byte>)
    requires at + |s| <= output.Length
    modifies output
    ensures output[..at + |s|] == old(output[..at]) + s
  {
    for i := 0 to |s|
      invariant output[..at + i] == old(output[..at]) + s[..i]
    {
      output[at + i] := s[i];
      assert output[..at + i + 1] == output[..at + i] + [s[i]];
      assert s[..i + 1] == s[..i] + [s[i]];
    }
  }
}
