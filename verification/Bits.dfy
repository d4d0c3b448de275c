/** Bit arithmetic on machine words, modelled on natural numbers one binary digit at a time. */
module Bits {

  type byte = b: int | 0 <= b < 256

  function ZeroBytes(n: nat): (s: seq<byte>)
    ensures |s| == n && forall i :: 0 <= i < n ==> s[i] == 0
  {
    seq(n, _ => 0)
  }

  function Pow2(k: nat): (p: nat)
    ensures p >= 1
  {
    if k == 0 then 1 else 2 * Pow2(k - 1)
  }

  /** Bitwise AND. */
  function And(a: nat, b: nat): nat {
    if a == 0 || b == 0 then 0
    else 2 * And(a / 2, b / 2) + (if a % 2 == 1 && b % 2 == 1 then 1 else 0)
  }

  /** Bitwise exclusive OR. */
  function Xor(a: nat, b: nat): nat
    decreases a + b
  {
    if a == 0 && b == 0 then 0
    else 2 * Xor(a / 2, b / 2) + (if a % 2 != b % 2 then 1 else 0)
  }

  /** Bitwise OR and AND-NOT. */
  function Or(a: nat, b: nat): nat
    decreases a + b
  {
    if a == 0 && b == 0 then 0 else 2 * Or(a / 2, b / 2) + (if a % 2 == 1 || b % 2 == 1 then 1 else 0)
  }

  function AndNot(a: nat, b: nat): nat {
    if a == 0 then 0 else 2 * AndNot(a / 2, b / 2) + (if a % 2 == 1 && b % 2 == 0 then 1 else 0)
  }

  function Bit(a: nat, m: nat): bool {
    if m == 0 then a % 2 == 1 else Bit(a / 2, m - 1)
  }

  /** The low `m` bits are zero. */
  predicate LowZero(a: nat, m: nat) {
    m == 0 || (a % 2 == 0 && LowZero(a / 2, m - 1))
  }

  /** The word shifted right by `m`. */
  function ShiftRight(a: nat, m: nat): nat {
    if m == 0 then a else ShiftRight(a / 2, m - 1)
  }

  /** The mask test `a & (2^m - 1) == 0` asks whether the low bits are zero. */
  lemma {:induction false} AndMask(a: nat, m: nat)
    ensures And(a, Pow2(m) - 1) == 0 <==> LowZero(a, m)
    decreases m
  {
    if m > 0 {
      AndMask(a / 2, m - 1);
      assert (2 * Pow2(m - 1) - 1) / 2 == Pow2(m - 1) - 1;
      if a == 0 { ZeroLowZero(m); }
    }
  }

  lemma {:induction false} ZeroLowZero(m: nat)
    ensures LowZero(0, m)
  {
    if m > 0 { ZeroLowZero(m - 1); }
  }

  /** Exclusive OR with a single bit flips exactly that bit. */
  lemma {:induction false} XorBit(a: nat, m: nat)
    ensures Xor(a, Pow2(m)) == if Bit(a, m) then a - Pow2(m) else a + Pow2(m)
    decreases m
  {
    if m == 0 {
      XorZero(a / 2);
      assert Xor(a, 1) == 2 * Xor(a / 2, 0) + (if a % 2 != 1 then 1 else 0);
    } else {
      XorBit(a / 2, m - 1);
      assert (2 * Pow2(m - 1)) / 2 == Pow2(m - 1);
    }
  }

  lemma {:induction false} XorZero(a: nat)
    ensures Xor(a, 0) == a
  {
    if a > 0 { XorZero(a / 2); }
  }

  lemma {:induction false} XorComm(a: nat, b: nat)
    ensures Xor(a, b) == Xor(b, a)
    decreases a + b
  {
    if a > 0 || b > 0 { XorComm(a / 2, b / 2); }
  }

  lemma {:induction false} XorAssoc(a: nat, b: nat, c: nat)
    ensures Xor(Xor(a, b), c) == Xor(a, Xor(b, c))
    decreases a + b + c
  {
    if a > 0 || b > 0 || c > 0 {
      XorAssoc(a / 2, b / 2, c / 2);
      XorDigit(a, b);
      XorDigit(b, c);
      XorDigit(Xor(a, b), c);
      XorDigit(a, Xor(b, c));
    }
  }

  /** Halving and parity commute with exclusive OR. */
  lemma {:induction false} XorDigit(a: nat, b: nat)
    ensures Xor(a, b) / 2 == Xor(a / 2, b / 2)
    ensures Xor(a, b) % 2 == (a + b) % 2
  {
  }

  lemma {:induction false} XorSelf(a: nat)
    ensures Xor(a, a) == 0
  {
    if a > 0 { XorSelf(a / 2); }
  }

  lemma {:induction false} XorBound(a: nat, b: nat, k: nat)
    requires a < Pow2(k) && b < Pow2(k)
    ensures Xor(a, b) < Pow2(k)
  {
    if k > 0 {
      XorBound(a / 2, b / 2, k - 1);
      XorDigit(a, b);
    }
  }

  /** Equal operands cancel: exclusive OR with a fixed word is injective. */
  lemma XorCancel(a: nat, b: nat, c: nat)
    requires Xor(a, c) == Xor(b, c)
    ensures a == b
  {
    XorAssoc(a, c, c);
    XorAssoc(b, c, c);
    XorSelf(c);
    XorZero(a);
    XorZero(b);
  }

  /** The bits of two words that do not meet are simply added. */
  lemma XorDisjoint(l: nat, h: nat)
    requires l < 2
    ensures Xor(l, 2 * h) == l + 2 * h
  {
    XorDigit(l, 2 * h);
    XorComm(0, h);
    XorZero(h);
  }

  lemma {:induction false} XorShiftRight(a: nat, b: nat, n: nat)
    ensures ShiftRight(Xor(a, b), n) == Xor(ShiftRight(a, n), ShiftRight(b, n))
  {
    if n > 0 {
      XorDigit(a, b);
      XorShiftRight(a / 2, b / 2, n - 1);
    }
  }

  lemma ShiftRight8(a: nat)
    ensures ShiftRight(a, 8) == a / 256
  {
    assert ShiftRight(a, 8) == ShiftRight(a / 2, 7) == ShiftRight(a / 4, 6) == ShiftRight(a / 8, 5);
    assert ShiftRight(a / 8, 5) == ShiftRight(a / 16, 4) == ShiftRight(a / 32, 3) == ShiftRight(a / 64, 2);
    assert ShiftRight(a / 64, 2) == ShiftRight(a / 128, 1) == a / 256;
  }

  lemma Pow2Words()
    ensures Pow2(8) == 0x100 && Pow2(31) == 0x8000_0000 && Pow2(32) == 0x1_0000_0000
  {
    assert Pow2(8) == 0x100;
    assert Pow2(12) == 0x1000;
    assert Pow2(16) == 0x1_0000;
    assert Pow2(20) == 0x10_0000;
    assert Pow2(24) == 0x100_0000;
    assert Pow2(28) == 0x1000_0000;
  }

  lemma {:induction false} LowZeroFewer(a: nat, m: nat, n: nat)
    requires LowZero(a, m) && n <= m
    ensures LowZero(a, n)
  {
    if n > 0 { LowZeroFewer(a / 2, m - 1, n - 1); }
  }

  /** A word whose low `m` bits are zero is a multiple of `2^m`. */
  lemma {:induction false} LowZeroMultiple(a: nat, m: nat)
    requires LowZero(a, m)
    ensures a % Pow2(m) == 0
  {
    if m > 0 {
      var p := Pow2(m - 1);
      LowZeroMultiple(a / 2, m - 1);
      TwiceMultiple(a / 2, p);
    }
  }

  lemma MulMono(d: nat, x: int, y: int)
    requires x <= y
    ensures d * x <= d * y
  {
    assert d * (y - x) >= 0;
    assert d * (y - x) == d * y - d * x;
  }

  lemma DivModUnique(a: nat, d: nat, q: int, r: int)
    requires d > 0 && a == d * q + r && 0 <= r < d
    ensures a / d == q && a % d == r
  {
    var q' := a / d;
    assert a == d * q' + a % d;
    if q < q' {
      MulMono(d, q + 1, q');
    } else if q' < q {
      MulMono(d, q' + 1, q);
    }
  }

  lemma TwiceMultiple(x: nat, p: nat)
    requires p > 0 && x % p == 0
    ensures (2 * x) % (2 * p) == 0
  {
    var q := x / p;
    assert x == p * q;
    DivModUnique(2 * x, 2 * p, q, 0);
  }

  lemma {:induction false} Pow2Grows(i: nat, j: nat)
    requires i < j
    ensures Pow2(i) < Pow2(j)
  {
    if i + 1 < j { Pow2Grows(i, j - 1); }
  }

  // ---------------------------------------------------------------- single bits

  lemma {:induction false} BitOfPow(k: nat, j: nat)
    ensures Bit(Pow2(k), j) <==> j == k
  {
    if k == 0 {
      if j > 0 { BitOfZero(j - 1); }
    } else if j > 0 {
      BitOfPow(k - 1, j - 1);
      assert Pow2(k) / 2 == Pow2(k - 1);
    }
  }

  lemma {:induction false} BitOfZero(j: nat)
    ensures !Bit(0, j)
  {
    if j > 0 { BitOfZero(j - 1); }
  }

  lemma OrDigit(a: nat, b: nat)
    ensures Or(a, b) / 2 == Or(a / 2, b / 2) && (Or(a, b) % 2 == 1 <==> a % 2 == 1 || b % 2 == 1)
  {
  }

  lemma AndNotDigit(a: nat, b: nat)
    ensures AndNot(a, b) / 2 == AndNot(a / 2, b / 2) && (AndNot(a, b) % 2 == 1 <==> a % 2 == 1 && b % 2 == 0)
  {
  }

  lemma {:induction false} BitOfOr(a: nat, b: nat, j: nat)
    ensures Bit(Or(a, b), j) <==> Bit(a, j) || Bit(b, j)
    decreases j
  {
    OrDigit(a, b);
    if j > 0 { BitOfOr(a / 2, b / 2, j - 1); }
  }

  lemma {:induction false} BitOfAndNot(a: nat, b: nat, j: nat)
    ensures Bit(AndNot(a, b), j) <==> Bit(a, j) && !Bit(b, j)
    decreases j
  {
    AndNotDigit(a, b);
    if j > 0 { BitOfAndNot(a / 2, b / 2, j - 1); }
  }

  lemma AndDigit(a: nat, b: nat)
    ensures And(a, b) / 2 == And(a / 2, b / 2) && (And(a, b) % 2 == 1 <==> a % 2 == 1 && b % 2 == 1)
  {
  }

  lemma {:induction false} BitOfAnd(a: nat, b: nat, j: nat)
    ensures Bit(And(a, b), j) <==> Bit(a, j) && Bit(b, j)
    decreases j
  {
    AndDigit(a, b);
    if j > 0 { BitOfAnd(a / 2, b / 2, j - 1); }
  }

  /** Words with the same bits are equal. */
  lemma {:induction false} SameBits(a: nat, b: nat)
    requires forall j: nat :: Bit(a, j) <==> Bit(b, j)
    ensures a == b
    decreases a + b
  {
    assert Bit(a, 0) <==> Bit(b, 0);
    if a > 0 || b > 0 {
      forall j: nat
        ensures Bit(a / 2, j) <==> Bit(b / 2, j)
      {
        assert Bit(a, j + 1) <==> Bit(b, j + 1);
      }
      SameBits(a / 2, b / 2);
    }
  }
}
