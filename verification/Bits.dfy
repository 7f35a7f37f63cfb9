/** Powers of two and bitwise conjunction on natural numbers. */
module Bits {
  function Pow2(k: nat): (r: nat)
    ensures r > 0
  {
    if k == 0 then 1 else 2 * Pow2(k - 1)
  }

  /** Bitwise conjunction. */
  function BitAnd(a: nat, b: nat): (r: nat)
    ensures r <= a && r <= b
  {
    if a == 0 || b == 0 then 0 else (if a % 2 == 1 && b % 2 == 1 then 1 else 0) + 2 * BitAnd(a / 2, b / 2)
  }

  /** A run of k low ones selects the remainder modulo 2^k. */
  lemma {:induction false} LowOnes(k: nat, p: nat)
    ensures BitAnd(Pow2(k) - 1, p) == p % Pow2(k)
  {
    if k > 0 && p > 0 {
      hide BitAnd;
      LowOnes(k - 1, p / 2);
      OneMore(Pow2(k - 1), p);
    } else if p == 0 {
      assert 0 % Pow2(k) == 0;
    }
  }

  lemma OneMore(h: nat, p: nat)
    requires h > 0 && p > 0 && BitAnd(h - 1, p / 2) == (p / 2) % h
    ensures BitAnd(2 * h - 1, p) == p % (2 * h)
  {
    hide BitAnd;
    OddMask(h, p);
    HalfRemainder(p, h);
  }

  lemma OddMask(h: nat, p: nat)
    requires h > 0 && p > 0
    ensures BitAnd(2 * h - 1, p) == p % 2 + 2 * BitAnd(h - 1, p / 2)
  {
    assert (2 * h - 1) / 2 == h - 1 && (2 * h - 1) % 2 == 1;
  }

  lemma HalfRemainder(p: nat, h: nat)
    requires h > 0
    ensures p % (2 * h) == p % 2 + 2 * ((p / 2) % h)
  {
    var q, r := (p / 2) / h, (p / 2) % h;
    assert p / 2 == q * h + r;
    assert p == q * (2 * h) + (p % 2 + 2 * r);
    RemainderUnique(p, 2 * h, q, p % 2 + 2 * r);
  }

  lemma RemainderUnique(p: int, m: int, q: int, r: int)
    requires m > 0 && 0 <= r < m && p == q * m + r
    ensures p % m == r
  {
    var d := q - p / m;
    assert d * m == p % m - r;
    if d >= 1 {
      Scaled(d - 1, m);
    } else if d <= -1 {
      Scaled(-d - 1, m);
    }
  }

  lemma Scaled(d: int, m: int)
    requires d >= 0 && m > 0
    ensures (d + 1) * m >= m && -(d + 1) * m <= -m
  {
    assert d * m >= 0;
  }

  lemma {:induction false} Pow2Values()
    ensures Pow2(8) == 0x100 && Pow2(16) == 0x1_0000 && Pow2(24) == 0x100_0000
  {
    assert Pow2(4) == 16 && Pow2(8) == 16 * Pow2(4);
    assert Pow2(12) == 16 * Pow2(8) && Pow2(16) == 16 * Pow2(12);
    assert Pow2(20) == 16 * Pow2(16) && Pow2(24) == 16 * Pow2(20);
  }

  /** Bit `i` of a number, the lowest being bit 0. */
  function Bit(x: nat, i: nat): (b: nat)
    ensures b <= 1
  {
    if i == 0 then x % 2 else Bit(x / 2, i - 1)
  }

  /** A conjunction has the bits both operands have. */
  lemma {:induction false} BitOfAnd(a: nat, b: nat, i: nat)
    ensures Bit(BitAnd(a, b), i) == 1 <==> Bit(a, i) == 1 && Bit(b, i) == 1
  {
    if a == 0 || b == 0 {
      BitOfZero(i);
    } else if i > 0 {
      BitOfAnd(a / 2, b / 2, i - 1);
    }
  }

  lemma {:induction false} BitOfZero(i: nat)
    ensures Bit(0, i) == 0
  {
    if i > 0 {
      BitOfZero(i - 1);
    }
  }

  lemma ComplementHalves(h: nat, x: nat)
    requires x < 2 * h
    ensures (2 * h - 1 - x) % 2 == 1 - x % 2 && (2 * h - 1 - x) / 2 == h - 1 - x / 2
  {
  }

  /** Taken from a run of ones, a number has its bits inverted. */
  lemma {:induction false} BitOfComplement(n: nat, x: nat, i: nat)
    requires x < Pow2(n) && i < n
    ensures Bit(Pow2(n) - 1 - x, i) == 1 - Bit(x, i)
  {
    assert Pow2(n) == 2 * Pow2(n - 1);
    hide Pow2;
    ComplementHalves(Pow2(n - 1), x);
    if i > 0 {
      BitOfComplement(n - 1, x / 2, i - 1);
    }
  }

  /** Bitwise exclusive disjunction. */
  function BitXor(a: nat, b: nat): nat {
    if a == 0 then b else if b == 0 then a else (a % 2 + b % 2) % 2 + 2 * BitXor(a / 2, b / 2)
  }

  lemma XorHalves(a: nat, b: nat)
    requires a > 0 && b > 0
    ensures BitXor(a, b) % 2 == (a % 2 + b % 2) % 2 && BitXor(a, b) / 2 == BitXor(a / 2, b / 2)
  {
  }

  lemma {:induction false} BitOfXor(a: nat, b: nat, i: nat)
    ensures Bit(BitXor(a, b), i) == (Bit(a, i) + Bit(b, i)) % 2
  {
    if a == 0 || b == 0 {
      BitOfZero(i);
    } else {
      XorHalves(a, b);
      hide BitXor;
      if i > 0 {
        BitOfXor(a / 2, b / 2, i - 1);
      }
    }
  }

  lemma LowHalves(x: nat, h: nat)
    requires h > 0
    ensures (x % (2 * h)) % 2 == x % 2 && (x % (2 * h)) / 2 == (x / 2) % h
  {
    HalfRemainder(x, h);
  }

  /** Cutting a number to its low `n` bits keeps those. */
  lemma {:induction false} BitOfLow(n: nat, x: nat, i: nat)
    requires i < n
    ensures Bit(x % Pow2(n), i) == Bit(x, i)
  {
    LowHalves(x, Pow2(n - 1));
    assert Pow2(n) == 2 * Pow2(n - 1);
    hide Pow2;
    if i > 0 {
      BitOfLow(n - 1, x / 2, i - 1);
    }
  }

  /** A shift to the left in 32 bits. */
  lemma BitOfShift(x: nat, i: nat)
    requires i < 32
    ensures Bit(2 * x % 0x1_0000_0000, i) == if i == 0 then 0 else Bit(x, i - 1)
  {
    Pow32();
    BitOfLow(32, 2 * x, i);
  }

  lemma Pow32()
    ensures Pow2(32) == 0x1_0000_0000
  {
    Pow2Values();
    assert Pow2(28) == 16 * Pow2(24) && Pow2(32) == 16 * Pow2(28);
  }
}
