/** Powers and the division facts the fixed-width arithmetic of the models rests on. */
module Arith {

  function Pow(b: nat, e: nat): (r: nat)
    ensures b > 0 ==> r > 0
    decreases e
  {
    if e == 0 then 1 else b * Pow(b, e - 1)
  }

  /** 2^k, the weight of bit k. */
  function Pow2(k: nat): (r: nat)
    ensures r > 0
  {
    Pow(2, k)
  }

  function Min(a: nat, b: nat): nat {
    if a <= b then a else b
  }

  lemma {:induction false} PowAdd(b: nat, m: nat, n: nat)
    ensures Pow(b, m + n) == Pow(b, m) * Pow(b, n)
    decreases m
  {
    if m > 0 {
      PowAdd(b, m - 1, n);
      MulAssoc(b, Pow(b, m - 1), Pow(b, n));
    }
  }

  lemma {:induction false} PowMono(b: nat, m: nat, n: nat)
    requires b > 0 && m <= n
    ensures Pow(b, m) <= Pow(b, n)
    decreases n - m
  {
    if m < n {
      PowMono(b, m, n - 1);
      MulMono(1, b, Pow(b, n - 1));
    }
  }

  lemma {:induction false} PowPow(b: nat, m: nat, n: nat)
    ensures 0 <= m * n && Pow(Pow(b, m), n) == Pow(b, m * n)
    decreases n
  {
    if n > 0 {
      PowPow(b, m, n - 1);
      assert m * n == m + m * (n - 1);
      PowAdd(b, m, m * (n - 1));
    }
  }

  lemma {:induction false} PowMonoBase(x: nat, y: nat, n: nat)
    requires x <= y
    ensures Pow(x, n) <= Pow(y, n)
    ensures x < y && n > 0 ==> Pow(x, n) < Pow(y, n)
    decreases n
  {
    if n > 0 {
      PowMonoBase(x, y, n - 1);
      MulMono(Pow(x, n - 1), Pow(y, n - 1), x);
      if x < y {
        MulStrict(x, y, Pow(y, n - 1));
      }
    }
  }

  lemma Pow2Add(m: nat, n: nat)
    ensures Pow2(m + n) == Pow2(m) * Pow2(n)
  {
    PowAdd(2, m, n);
  }

  /** 2^n == 2^m * 2^(n-m). */
  lemma Pow2Split(m: nat, n: nat)
    requires m <= n
    ensures Pow2(n) == Pow2(m) * Pow2(n - m)
  {
    PowAdd(2, m, n - m);
  }

  lemma Pow2Mono(m: nat, n: nat)
    requires m <= n
    ensures Pow2(m) <= Pow2(n)
  {
    PowMono(2, m, n);
  }

  lemma MulAssoc(a: int, b: int, c: int)
    ensures a * (b * c) == (a * b) * c
  {
  }

  lemma MulMono(a: int, b: int, c: int)
    requires a <= b && 0 <= c
    ensures a * c <= b * c
    ensures c * a <= c * b
  {
  }

  lemma MulStrict(a: int, b: int, c: int)
    requires a < b && 0 < c
    ensures a * c < b * c
    ensures c * a < c * b
  {
  }

  /** A multiple of d that lies strictly between -d and d is zero. */
  lemma SmallMultiple(k: int, d: int)
    requires 0 < d && -d < k * d < d
    ensures k == 0
  {
    if k >= 1 {
      MulMono(1, k, d);
    } else if k <= -1 {
      MulMono(k, -1, d);
    }
  }

  /** Quotient and remainder are the only decomposition with a small remainder. */
  lemma DivModUnique(x: int, d: int, q: int, r: int)
    requires 0 <= r < d && x == q * d + r
    ensures x / d == q && x % d == r
  {
    var k := q - x / d;
    assert x == (x / d) * d + x % d;
    assert k * d == x % d - r;
    SmallMultiple(k, d);
  }

  lemma DivModOf(x: int, d: int)
    requires 0 < d
    ensures x == (x / d) * d + x % d && 0 <= x % d < d
  {
  }

  lemma DivNonNeg(x: int, d: int)
    requires 0 <= x && 0 < d
    ensures 0 <= x / d <= x
  {
    DivModOf(x, d);
    if x / d < 0 {
      MulMono(x / d, -1, d);
    }
    MulMono(1, d, x / d);
  }

  /** x < q * d exactly when x / d < q. */
  lemma DivLess(x: int, d: int, q: int)
    requires 0 < d
    ensures x < q * d <==> x / d < q
  {
    DivModOf(x, d);
    if x / d < q {
      MulMono(x / d + 1, q, d);
    } else {
      MulMono(q, x / d, d);
    }
  }

  /** Nested division, and how the two remainders fit together. */
  lemma DivDiv(x: int, a: int, b: int)
    requires 0 < a && 0 < b
    ensures 0 < a * b
    ensures x / (a * b) == x / a / b
    ensures x % (a * b) == (x / a % b) * a + x % a
    ensures (x % (a * b)) / a == x / a % b
    ensures (x % (a * b)) % a == x % a
  {
    var u, v := x / a, x % a;
    var s, t := u / b, u % b;
    assert 0 < a * b;
    DivModOf(x, a);
    DivModOf(u, b);
    calc {
      x;
      u * a + v;
      (s * b + t) * a + v;
      (s * b) * a + t * a + v;
      { MulAssoc(s, b, a); }
      s * (a * b) + (t * a + v);
    }
    MulMono(t, b - 1, a);
    MulMono(0, t, a);
    assert 0 <= t * a + v < a * b;
    DivModUnique(x, a * b, s, t * a + v);
    DivModUnique(t * a + v, a, t, v);
  }

  /** Scaling by a commutes with reducing modulo b. */
  lemma ScaleMod(x: int, a: int, b: int)
    requires 0 < a && 0 < b
    ensures 0 < a * b
    ensures (x * a) % (a * b) == (x % b) * a
    ensures (x * a) / (a * b) == x / b
    ensures x * a == (x / b) * (a * b) + (x % b) * a
  {
    DivModOf(x, b);
    var q, r := x / b, x % b;
    assert x * a == (q * b + r) * a == (q * b) * a + r * a;
    MulAssoc(q, b, a);
    MulMono(0, r, a);
    MulMono(r, b - 1, a);
    assert 0 < a * b;
    DivModUnique(x * a, a * b, q, r * a);
  }

  lemma ModAddMultiple(x: int, k: int, d: int)
    requires 0 < d
    ensures (x + k * d) % d == x % d
    ensures (x + k * d) / d == x / d + k
  {
    DivModOf(x, d);
    assert x + k * d == (x / d + k) * d + x % d;
    DivModUnique(x + k * d, d, x / d + k, x % d);
  }

  lemma SmallMod(x: int, d: int)
    requires 0 <= x < d
    ensures x % d == x && x / d == 0
  {
    DivModUnique(x, d, 0, x);
  }

  lemma Pow2Double(k: nat, n: nat, w: nat)
    requires n == 2 * k && w == Pow2(k)
    ensures Pow2(n) == w * w
  {
    Pow2Add(k, k);
  }

  /** The powers of two that name word sizes. */
  lemma WordSizes()
    ensures Pow2(0) == 1 && Pow2(1) == 2 && Pow2(8) == 0x100 && Pow2(16) == 0x1_0000 && Pow2(32) == 0x1_0000_0000
    ensures Pow2(64) == 0x1_0000_0000_0000_0000
    ensures Pow2(128) == 0x1_0000_0000_0000_0000_0000_0000_0000_0000
  {
    var k := 8;
    assert Pow2(k) == 0x100;
    var k16, k32, k64, k128 := 2 * k, 4 * k, 8 * k, 16 * k;
    Pow2Double(k, k16, 0x100);
    Pow2Double(k16, k32, 0x1_0000);
    Pow2Double(k32, k64, 0x1_0000_0000);
    Pow2Double(k64, k128, 0x1_0000_0000_0000_0000);
  }
}
