/** Facts about powers of two and Euclidean division used by the codec proofs. */
module Arith {
  import opened Types

  lemma {:induction false} Pow2Add(a: nat, b: nat)
    ensures Pow2(a + b) == Pow2(a) * Pow2(b)
  {
    if a > 0 {
      Pow2Add(a - 1, b);
    }
  }

  lemma Pow2Monotone(a: nat, b: nat)
    requires a <= b
    ensures Pow2(a) <= Pow2(b)
  {
    Pow2Add(a, b - a);
  }

  lemma MulAtLeast(x: int, d: int)
    requires x >= 1 && d > 0
    ensures x * d >= d
  {
  }

  lemma DivAtMost(a: nat, b: nat)
    requires b > 0
    ensures a / b <= a
  {
    var q := a / b;
    if q > 0 {
      MulAtLeast(b, q);
      assert q * b <= a;
    }
  }

  lemma DivMulAtMost(a: nat, d: nat)
    requires d > 0
    ensures a / d * d <= a
  {
  }

  lemma DivModUnique(a: int, d: int, q: int, r: int)
    requires d > 0 && 0 <= r < d && a == q * d + r
    ensures a / d == q && a % d == r
  {
    var q', r' := a / d, a % d;
    assert (q - q') * d == r' - r by {
      assert q * d + r == q' * d + r';
    }
    if q > q' {
      MulAtLeast(q - q', d);
    } else if q < q' {
      MulAtLeast(q' - q, d);
    }
  }

  lemma MulDistrib(x: int, y: int, z: int)
    ensures (x + y) * z == x * z + y * z
  {
  }

  lemma MulAssoc(x: int, y: int, z: int)
    ensures (x * y) * z == x * (y * z)
  {
  }

  lemma MulMono(x: int, y: int, z: int)
    requires x <= y && z >= 0
    ensures x * z <= y * z
  {
    MulDistrib(y - x, x, z);
  }

  /** a % (m * p) splits into the digit (a / p) % m and the remainder a % p. */
  lemma ModSplit(a: nat, p: nat, m: nat)
    requires p > 0 && m > 0
    ensures a % (m * p) == ((a / p) % m) * p + a % p
    ensures a / (m * p) == (a / p) / m
  {
    var q, r := a / p, a % p;
    var hi, mid := q / m, q % m;
    assert a == q * p + r;
    assert q == hi * m + mid;
    MulDistrib(hi * m, mid, p);
    MulAssoc(hi, m, p);
    assert a == hi * (m * p) + (mid * p + r);
    MulMono(mid, m - 1, p);
    MulDistrib(m, -1, p);
    assert 0 <= mid * p + r < m * p;
    DivModUnique(a, m * p, hi, mid * p + r);
  }

  lemma ShrStep(x: nat, n: nat)
    ensures Shr(x, n + 1) == Shr(x, n) / 2
  {
    Pow2Add(n, 1);
    assert Pow2(n + 1) == 2 * Pow2(n);
    ModSplit(x, Pow2(n), 2);
  }

  /** x is its low n bits plus Shr(x, n) shifted back up. */
  lemma ShrSplit(x: nat, n: nat)
    ensures x == Shr(x, n) * Pow2(n) + x % Pow2(n)
  {
  }

  lemma ShrSmall(x: nat, n: nat)
    requires x < Pow2(n)
    ensures Shr(x, n) == 0 && x % Pow2(n) == x
  {
    DivModUnique(x, Pow2(n), 0, x);
  }

  /** Incrementing a `uint32_t` wraps the mathematical successor. */
  lemma U32Succ(a: int)
    ensures U32(U32(a) + 1) == U32(a + 1)
  {
    var q := a / 0x1_0000_0000;
    var m: int := U32(a);
    if m + 1 < 0x1_0000_0000 {
      DivModUnique(a + 1, 0x1_0000_0000, q, m + 1);
    } else {
      DivModUnique(a + 1, 0x1_0000_0000, q + 1, 0);
    }
  }

  /** ANDing with 2^k - 1 keeps the low k bits: it is the remainder modulo 2^k. */
  lemma {:induction false} AndLowMask(a: nat, mask: nat, k: nat, n: nat)
    requires k <= n && mask + 1 == Pow2(k)
    ensures AndBits(a, mask, n) == a % Pow2(k)
  {
    if n > 0 {
      if k == 0 {
        AndLowMask(a / 2, 0, 0, n - 1);
      } else {
        var half := Pow2(k - 1);
        assert Pow2(k) == 2 * half;
        DivModUnique(mask, 2, half - 1, 1);
        AndLowMask(a / 2, half - 1, k - 1, n - 1);
        assert AndBits(a, mask, n) == a % 2 + 2 * ((a / 2) % half);
        ModSplit(a, 2, half);
      }
    }
  }

  /** ORing with 0 changes nothing below 2^n. */
  lemma {:induction false} OrZero(a: nat, n: nat)
    requires a < Pow2(n)
    ensures OrBits(a, 0, n) == a
  {
    if n > 0 {
      OrZero(a / 2, n - 1);
    }
  }

  /** When the low k bits of `c` are clear, ORing in `f < 2^k` leaves `f` as the low k bits. */
  lemma {:induction false} OrLowBits(c: nat, f: nat, n: nat, k: nat)
    requires k <= n && f < Pow2(k) && c % Pow2(k) == 0
    ensures OrBits(c, f, n) % Pow2(k) == f
  {
    if k > 0 {
      var half := Pow2(k - 1);
      assert Pow2(k) == half * 2;
      ModSplit(c, 2, half);
      OrLowBits(c / 2, f / 2, n - 1, k - 1);
      var x, rest := OrBits(c, f, n), OrBits(c / 2, f / 2, n - 1);
      assert x == f % 2 + 2 * rest;
      DivModUnique(x, 2, rest, f % 2);
      ModSplit(x, 2, half);
    }
  }

  lemma Pow2Thirty()
    ensures Pow2(30) == 0x4000_0000
  {
    assert Pow2(1) == 0x2;
    assert Pow2(2) == 0x4;
    assert Pow2(3) == 0x8;
    assert Pow2(4) == 0x10;
    assert Pow2(5) == 0x20;
    assert Pow2(6) == 0x40;
    assert Pow2(7) == 0x80;
    assert Pow2(8) == 0x100;
    assert Pow2(9) == 0x200;
    assert Pow2(10) == 0x400;
    assert Pow2(11) == 0x800;
    assert Pow2(12) == 0x1000;
    assert Pow2(13) == 0x2000;
    assert Pow2(14) == 0x4000;
    assert Pow2(15) == 0x8000;
    assert Pow2(16) == 0x10000;
    assert Pow2(17) == 0x20000;
    assert Pow2(18) == 0x40000;
    assert Pow2(19) == 0x80000;
    assert Pow2(20) == 0x100000;
    assert Pow2(21) == 0x200000;
    assert Pow2(22) == 0x400000;
    assert Pow2(23) == 0x800000;
    assert Pow2(24) == 0x1000000;
    assert Pow2(25) == 0x2000000;
    assert Pow2(26) == 0x4000000;
    assert Pow2(27) == 0x8000000;
    assert Pow2(28) == 0x10000000;
    assert Pow2(29) == 0x20000000;
    assert Pow2(30) == 0x40000000;
  }

}
