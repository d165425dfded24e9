/** Octet strings: the integer conversions of sections 4.1 and 4.2 of RFC 3447, byte-wise
    exclusive or, and the size of an RSA modulus in octets. */
module Octets {
  import opened NumberTheory

  type Octet = x: int | 0 <= x < 256
  type Bytes = seq<Octet>

  /** Exclusive or of the n low bits of a and b. */
  function BitXor(a: nat, b: nat, n: nat): nat {
    if n == 0 then 0
    else (if a % 2 == b % 2 then 0 else 1) + 2 * BitXor(a / 2, b / 2, n - 1)
  }

  /** Inclusive or of the n low bits of a and b. */
  function BitOr(a: nat, b: nat, n: nat): nat {
    if n == 0 then 0
    else (if a % 2 == 0 && b % 2 == 0 then 0 else 1) + 2 * BitOr(a / 2, b / 2, n - 1)
  }

  lemma {:induction false} BitsBelow(a: nat, b: nat, n: nat)
    ensures BitXor(a, b, n) < Pow(2, n) && BitOr(a, b, n) < Pow(2, n)
  {
    if n > 0 {
      BitsBelow(a / 2, b / 2, n - 1);
    }
  }

  lemma {:induction false} BitXorCancels(a: nat, b: nat, n: nat)
    requires a < Pow(2, n)
    ensures BitXor(BitXor(a, b, n), b, n) == a
  {
    if n > 0 {
      BitXorCancels(a / 2, b / 2, n - 1);
    }
  }

  lemma {:induction false} BitXorIsZero(a: nat, b: nat, n: nat)
    requires a < Pow(2, n) && b < Pow(2, n)
    ensures BitXor(a, b, n) == 0 <==> a == b
  {
    if n > 0 {
      BitXorIsZero(a / 2, b / 2, n - 1);
    }
  }

  lemma {:induction false} BitOrIsZero(a: nat, b: nat, n: nat)
    requires a < Pow(2, n) && b < Pow(2, n)
    ensures BitOr(a, b, n) == 0 <==> a == 0 && b == 0
  {
    if n > 0 {
      BitOrIsZero(a / 2, b / 2, n - 1);
    }
  }

  lemma EightBits()
    ensures Pow(2, 8) == 256
  {
    assert Pow(2, 2) == 4;
    PowSum(2, 2, 2);
    PowSum(2, 4, 4);
  }

  function XorOctets(a: Octet, b: Octet): (c: Octet)
    ensures c == 0 <==> a == b
  {
    EightBits();
    BitsBelow(a, b, 8);
    BitXorIsZero(a, b, 8);
    BitXor(a, b, 8)
  }

  function OrOctets(a: Octet, b: Octet): (c: Octet)
    ensures c == 0 <==> a == 0 && b == 0
  {
    EightBits();
    BitsBelow(a, b, 8);
    BitOrIsZero(a, b, 8);
    BitOr(a, b, 8)
  }

  // ---- What the operations do to bits and digits ----

  lemma DivideTwice(x: nat, p: nat)
    requires p > 0
    ensures x / (2 * p) == x / 2 / p
  {
    var q := x / 2 / p;
    var r := x / 2 - p * q;
    assert x == 2 * (p * q + r) + x % 2 && 0 <= r < p;
    assert x == 2 * p * q + (2 * r + x % 2);
    Divided(x, 2 * p, q, 2 * r + x % 2);
  }

  lemma Divided(x: int, d: nat, q: int, r: int)
    requires d > 0 && x == d * q + r && 0 <= r < d
    ensures x / d == q
  {
    var k := q - x / d;
    assert d * k == x % d - r;
    assert k >= 1 ==> d * k >= d;
    assert k <= -1 ==> d * k + d <= 0;
  }

  lemma {:induction false} BitOfXor(a: nat, b: nat, n: nat, i: nat)
    requires i < n
    ensures BitXor(a, b, n) / Pow(2, i) % 2 == 1 <==> a / Pow(2, i) % 2 != b / Pow(2, i) % 2
  {
    if i > 0 {
      BitOfXor(a / 2, b / 2, n - 1, i - 1);
      DivideTwice(BitXor(a, b, n), Pow(2, i - 1));
      DivideTwice(a, Pow(2, i - 1));
      DivideTwice(b, Pow(2, i - 1));
      assert BitXor(a, b, n) / 2 == BitXor(a / 2, b / 2, n - 1);
    }
  }

  /** Bit by bit an exclusive or is set exactly where the operands differ. */
  lemma XorBits(a: Octet, b: Octet)
    ensures forall i: nat :: i < 8 ==>
              (XorOctets(a, b) / Pow(2, i) % 2 == 1 <==> a / Pow(2, i) % 2 != b / Pow(2, i) % 2)
  {
    forall i: nat | i < 8
      ensures XorOctets(a, b) / Pow(2, i) % 2 == 1 <==> a / Pow(2, i) % 2 != b / Pow(2, i) % 2
    {
      BitOfXor(a, b, 8, i);
    }
  }

  lemma XorBitsAll(a: Bytes, b: Bytes)
    requires |a| == |b|
    ensures forall j, i: nat :: 0 <= j < |a| && i < 8 ==>
              (Xor(a, b)[j] / Pow(2, i) % 2 == 1 <==> a[j] / Pow(2, i) % 2 != b[j] / Pow(2, i) % 2)
  {
    forall j, i: nat | 0 <= j < |a| && i < 8
      ensures Xor(a, b)[j] / Pow(2, i) % 2 == 1 <==> a[j] / Pow(2, i) % 2 != b[j] / Pow(2, i) % 2
    {
      XorBits(a[j], b[j]);
    }
  }

  /** Octet string to integer, most significant octet first. */
  function OS2IP(s: Bytes): nat {
    if s == [] then 0 else OS2IP(s[..|s| - 1]) * 256 + s[|s| - 1]
  }

  /** Integer to an octet string of exactly k octets. */
  function I2OSP(x: nat, k: nat): (s: Bytes)
    requires x < Pow(256, k)
    ensures |s| == k
  {
    if k == 0 then [] else I2OSP(x / 256, k - 1) + [x % 256]
  }

  function Zeros(n: nat): (s: Bytes)
    ensures |s| == n && forall i :: 0 <= i < n ==> s[i] == 0
  {
    seq(n, _ => 0)
  }

  function Xor(a: Bytes, b: Bytes): (c: Bytes)
    requires |a| == |b|
    ensures |c| == |a| && forall i :: 0 <= i < |a| ==> c[i] == XorOctets(a[i], b[i])
  {
    seq(|a|, i requires 0 <= i < |a| => XorOctets(a[i], b[i]))
  }

  /** Number of bits of n. */
  function BitSize(n: nat): nat {
    if n == 0 then 0 else 1 + BitSize(n / 2)
  }

  /** Number of octets of the modulus n: its bit size divided by 8, rounded up. */
  function OctetSize(n: nat): nat {
    (BitSize(n) + 7) / 8
  }

  lemma {:induction false} IntegerFitsOctets(s: Bytes)
    ensures OS2IP(s) < Pow(256, |s|)
  {
    if s != [] {
      IntegerFitsOctets(s[..|s| - 1]);
    }
  }

  lemma {:induction false} OctetsOfInteger(s: Bytes)
    ensures OS2IP(s) < Pow(256, |s|) && I2OSP(OS2IP(s), |s|) == s
  {
    IntegerFitsOctets(s);
    if s != [] {
      var front := s[..|s| - 1];
      OctetsOfInteger(front);
      assert OS2IP(s) / 256 == OS2IP(front) && OS2IP(s) % 256 == s[|s| - 1];
      assert s == front + [s[|s| - 1]];
    }
  }

  lemma AppendOctet(front: Bytes, b: Octet)
    ensures OS2IP(front + [b]) == OS2IP(front) * 256 + b
  {
    assert (front + [b])[..|front|] == front;
  }

  lemma {:induction false} IntegerOfOctets(x: nat, k: nat)
    requires x < Pow(256, k)
    ensures OS2IP(I2OSP(x, k)) == x
  {
    if k > 0 {
      IntegerOfOctets(x / 256, k - 1);
      AppendOctet(I2OSP(x / 256, k - 1), x % 256);
    }
  }

  /** The i-th octet is the digit of weight 256^(k-1-i): the most significant one comes first. */
  lemma {:induction false} OctetIsDigit(s: Bytes, i: nat)
    requires i < |s|
    ensures OS2IP(s) / Pow(256, |s| - 1 - i) % 256 == s[i]
  {
    var w := |s| - 1 - i;
    if w > 0 {
      var front := s[..|s| - 1];
      OctetIsDigit(front, i);
      DivideByDigit(OS2IP(s), OS2IP(front), s[|s| - 1], Pow(256, w - 1));
    }
  }

  lemma DivideByDigit(x: nat, front: nat, digit: Octet, p: nat)
    requires p > 0 && x == front * 256 + digit
    ensures x / (256 * p) == front / p
  {
    var q := front / p;
    var r := front - p * q;
    assert x == 256 * p * q + (256 * r + digit);
    Divided(x, 256 * p, q, 256 * r + digit);
  }

  lemma {:induction false} LeadingZero(s: Bytes)
    ensures OS2IP([0] + s) == OS2IP(s)
  {
    var t := [0] + s;
    if s == [] {
      assert OS2IP(t) == OS2IP(t[..0]) * 256 + 0;
    } else {
      LeadingZero(s[..|s| - 1]);
      assert t[..|t| - 1] == [0] + s[..|s| - 1];
    }
  }

  lemma XorCancels(a: Bytes, b: Bytes)
    requires |a| == |b|
    ensures Xor(Xor(a, b), b) == a
  {
    forall i | 0 <= i < |a|
      ensures XorOctets(XorOctets(a[i], b[i]), b[i]) == a[i]
    {
      EightBits();
      BitXorCancels(a[i], b[i], 8);
    }
  }

  lemma {:induction false} BitSizeBounds(n: nat)
    requires n > 0
    ensures BitSize(n) > 0 && Pow(2, BitSize(n) - 1) <= n < Pow(2, BitSize(n))
  {
    if n > 1 {
      BitSizeBounds(n / 2);
    } else {
      assert Pow(2, 1) == 2 * Pow(2, 0);
    }
  }

  lemma PowersOf256(j: nat)
    ensures Pow(256, j) == Pow(2, 8 * j)
  {
    EightBits();
    PowPow(2, 8, j);
  }

  /** With k octets, 256^(k-1) <= n < 256^k: an integer below n fits k octets, and one that
      fits k - 1 octets is below n. */
  lemma OctetSizeBounds(n: nat)
    requires n > 0
    ensures OctetSize(n) > 0 && Pow(256, OctetSize(n) - 1) <= n < Pow(256, OctetSize(n))
  {
    var k := OctetSize(n);
    BitSizeBounds(n);
    PowersOf256(k - 1);
    PowersOf256(k);
    PowMonotone(2, 8 * (k - 1), BitSize(n) - 1);
    PowMonotone(2, BitSize(n), 8 * k);
  }
}
