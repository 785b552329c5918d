/**
 Numbers as the machine has them: words and their bytes, remainders, bitwise operations.
 */
module Bits {
  import opened Basics

  const U32 := 0x1_0000_0000

  type uint16 = x: int | 0 <= x < 0x10000

  lemma DivModUnique(p: nat, a: nat, q: nat, r: nat)
    requires p > 0 && a == p * q + r && r < p
    ensures a % p == r
  {
    var k := a / p - q;
    assert p * k == r - a % p;
    assert 0 - p < p * k < p;
    assert k == 0 by {
      assert k >= 1 ==> p * k >= p;
      assert k <= -1 ==> p * k <= 0 - p;
    }
  }

  lemma ModStep(p: nat, a: nat)
    requires 0 < p <= a
    ensures a % p == (a - p) % p
  {
    DivModUnique(p, a, (a - p) / p + 1, (a - p) % p);
  }

  lemma Mod256Add(a: nat, b: nat)
    ensures (a % 256 + b) % 256 == (a + b) % 256
  {
  }

  lemma Same256(a: nat, b: nat, k: int)
    requires a == b + 256 * k
    ensures a % 256 == b % 256
  {
  }

  function Lo(w: nat): byte { w % 256 }

  function Hi(w: nat): byte { w / 256 % 256 }

  function Word(lo: byte, hi: byte): (w: nat)
    ensures w < 0x10000
  {
    hi * 256 + lo
  }

  lemma WordParts(lo: byte, hi: byte)
    ensures Lo(Word(lo, hi)) == lo && Hi(Word(lo, hi)) == hi
  {
  }

  /** Bitwise AND. */
  function BitAnd(a: nat, b: nat): (r: nat)
    ensures r <= a && r <= b
  {
    if a == 0 || b == 0 then 0
    else 2 * BitAnd(a / 2, b / 2) + (a % 2) * (b % 2)
  }

  /** Bitwise OR. */
  function BitOr(a: nat, b: nat): nat {
    a + b - BitAnd(a, b)
  }

  /** 2^n - 1. */
  function Ones(n: nat): nat {
    if n == 0 then 0 else 2 * Ones(n - 1) + 1
  }

  lemma {:induction false} AndOnes(n: nat, x: nat)
    requires x <= Ones(n)
    ensures BitAnd(Ones(n), x) == x && BitAnd(x, Ones(n)) == x
  {
    if n > 0 {
      var o := Ones(n - 1);
      assert Ones(n) == 2 * o + 1 && Ones(n) / 2 == o && Ones(n) % 2 == 1;
      AndOnes(n - 1, x / 2);
      AndHalves(2 * o + 1, x, o, x / 2, x % 2);
    }
  }

  lemma AndHalves(a: nat, x: nat, o: nat, q: nat, r: nat)
    requires a == 2 * o + 1 && x == 2 * q + r && r < 2 && BitAnd(o, q) == q && BitAnd(q, o) == q
    ensures BitAnd(a, x) == x && BitAnd(x, a) == x
  {
    assert a / 2 == o && a % 2 == 1 && x / 2 == q && x % 2 == r;
  }

  lemma AndBlank(x: byte)
    ensures BitAnd(255, x) == x && BitAnd(x, 255) == x
  {
    assert Ones(4) == 15;
    assert Ones(8) == 255;
    AndOnes(8, x);
  }

  /** A word of `width` bits with all but the low `k` set: the complement of `Ones(k)`. */
  function HighOnes(k: nat, width: nat): (r: nat)
    requires k <= width
    ensures r + Ones(k) == Ones(width)
  {
    if k == 0 then Ones(width) else 2 * HighOnes(k - 1, width - 1)
  }

  lemma AndShifted(q: nat, r: nat, x: nat)
    requires r < 2
    ensures BitAnd(2 * q + r, 2 * x) == 2 * BitAnd(q, x)
  {
    assert (2 * q + r) / 2 == q && (2 * x) / 2 == x && (2 * x) % 2 == 0;
  }

  lemma ModTwice(p: nat, q: nat, r: nat)
    requires p > 0 && r < 2
    ensures (2 * q + r) % (2 * p) == 2 * (q % p) + r
  {
    DivModUnique(2 * p, 2 * q + r, q / p, 2 * (q % p) + r);
  }

  lemma HighOnesStep(k: nat, width: nat)
    requires k <= width
    ensures k == 0 ==> Ones(k) == 0 && HighOnes(k, width) == Ones(width)
    ensures k > 0 ==> HighOnes(k, width) == 2 * HighOnes(k - 1, width - 1)
    ensures k > 0 ==> Ones(k) == 2 * Ones(k - 1) + 1 && Ones(width) == 2 * Ones(width - 1) + 1
  {
  }

  lemma AndHighStep(q: nat, r: nat, x: nat, p: nat)
    requires r < 2 && p > 0 && BitAnd(q, x) == q - q % p
    ensures BitAnd(2 * q + r, 2 * x) == 2 * q + r - (2 * q + r) % (2 * p)
  {
    hide BitAnd;
    AndShifted(q, r, x);
    ModTwice(p, q, r);
  }

  lemma Halves(a: nat, bound: nat) returns (q: nat, r: nat)
    requires a <= 2 * bound + 1
    ensures a == 2 * q + r && r < 2 && q <= bound
  {
    q, r := a / 2, a % 2;
  }

  lemma {:induction false} AndHigh(k: nat, width: nat, a: nat)
    requires k <= width && a <= Ones(width)
    ensures BitAnd(a, HighOnes(k, width)) == a - a % (Ones(k) + 1)
    decreases k
  {
    hide BitAnd, Ones, HighOnes;
    HighOnesStep(k, width);
    if k == 0 {
      AndOnes(width, a);
    } else {
      var q, r := Halves(a, Ones(width - 1));
      AndHigh(k - 1, width - 1, q);
      AndHighStep(q, r, HighOnes(k - 1, width - 1), Ones(k - 1) + 1);
    }
  }
}
