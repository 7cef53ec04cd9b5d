/**
 Conversion of 256-bit integers to the bit pattern of a binary64 number: round to nearest,
 ties to even (section 4.3.1 of IEEE 754-2008).
 */
module FloatFormat {
  import opened Arith
  import opened Bitwise
  import opened Words
  import opened Uint256

  const T52: nat := 0x10_0000_0000_0000
  const T53: nat := 0x20_0000_0000_0000
  const T75: nat := 0x800_0000_0000_0000_0000
  const T127: nat := 0x8000_0000_0000_0000_0000_0000_0000_0000
  const T202: nat := T75 * T127
  const T203: nat := T75 * B

  // ----- what the result has to be -----

  /** x / d rounded to the nearest integer, a tie going to the even one. */
  function RoundedQuotient(x: nat, d: nat): (q: nat)
    requires d > 0
  {
    DivNonNeg(x, d);
    var q, r := x / d, x % d;
    if 2 * r > d || (2 * r == d && q % 2 == 1) then q + 1 else q
  }

  /** How many low bits do not fit 53 significant ones. */
  function Excess(x: nat): nat {
    if BitLen(x) <= 53 then 0 else BitLen(x) - 53
  }

  function RoundTo53(x: nat): nat {
    RoundedQuotient(x, Pow2(Excess(x))) * Pow2(Excess(x))
  }

  /**
   A pattern with sign 0, exponent field e and fraction f stands for the integer v:
   (2^52 + f) * 2^(e - 1075) == v for a normal number, which is below 1 when e < 1023;
   the only integer with exponent field 0 is zero.
   */
  ghost predicate Denotes(bits: nat, v: nat) {
    var e, f := bits / T52, bits % T52;
    if e == 0 then f == 0 && v == 0
    else 1023 <= e < 2047 && (T52 + f) * Pow2(e - 1023) == v * T52
  }

  function Dist(a: int, b: int): nat {
    if a <= b then b - a else a - b
  }

  lemma RoundedQuotientNearest(x: nat, d: nat, z: int)
    requires d > 0
    ensures Dist(x, RoundedQuotient(x, d) * d) <= Dist(x, z * d)
    ensures 2 * Dist(x, RoundedQuotient(x, d) * d) == d ==> RoundedQuotient(x, d) % 2 == 0
  {
    DivModOf(x, d);
    var q, r := x / d, x % d;
    assert x == q * d + r;
    assert (q + 1) * d == q * d + d;
    if z <= q {
      MulMono(z, q, d);
    } else {
      MulMono(q + 1, z, d);
    }
  }

  lemma DistScale(a: int, b: int, c: nat)
    ensures Dist(a, b) * c == Dist(a * c, b * c)
  {
    if a <= b {
      MulMono(a, b, c);
    } else {
      MulMono(b, a, c);
    }
  }

  /** Scaling everything by c keeps the nearest multiple of d nearest. */
  lemma NearestScaled(x: nat, d: nat, c: nat, z: nat, y: nat)
    requires d > 0 && y == (z * d) * c
    ensures Dist(x, RoundedQuotient(x, d) * d) * c <= Dist(x * c, y)
  {
    RoundedQuotientNearest(x, d, z);
    DistScale(x, z * d, c);
    MulMono(Dist(x, RoundedQuotient(x, d) * d), Dist(x, z * d), c);
  }

  /** Anything below a multiple z * d that is itself below x is even further away. */
  lemma NearestBelow(x: nat, d: nat, c: nat, z: nat, y: nat)
    requires d > 0 && z * d <= x && y <= (z * d) * c
    ensures Dist(x, RoundedQuotient(x, d) * d) * c <= Dist(x * c, y)
  {
    NearestScaled(x, d, c, z, (z * d) * c);
    MulMono(z * d, x, c);
  }

  lemma CoarseGrid(m: nat, j: nat, s: nat, k: nat)
    requires j >= s + k
    ensures m * Pow2(j) == (m * Pow2(j - s - k)) * Pow2(s) * Pow2(k)
  {
    Pow2Add(s + k, j - s - k);
    Pow2Add(s, k);
    var a, b, c := Pow2(j - s - k), Pow2(s), Pow2(k);
    calc {
      m * ((b * c) * a);
      m * (a * (b * c));
      { MulAssoc(m, a, b * c); }
      (m * a) * (b * c);
      { MulAssoc(m * a, b, c); }
      (m * a) * b * c;
    }
  }

  lemma BelowTheLeadingBit(m: nat, j: nat, s: nat, k: nat)
    requires s > 0 && m < T53 && j < s + k
    ensures m * Pow2(j) <= (T52 * Pow2(s)) * Pow2(k)
  {
    Pow2Mono(j, s + k - 1);
    MulMono(m, T53, Pow2(j));
    MulMono(Pow2(j), Pow2(s + k - 1), T53);
    assert Pow2(s + k) == 2 * Pow2(s + k - 1);
    Pow2Add(s, k);
    MulAssoc(T52, Pow2(s), Pow2(k));
  }

  lemma T52Is(k: nat)
    requires k == 52
    ensures Pow2(k) == T52
  {
    var n := 13;
    assert Pow2(n) == 0x2000;
    Pow2Double(n, 2 * n, 0x2000);
    Pow2Double(2 * n, k, 0x400_0000);
  }

  /** A number with excess bits is at least 2^52 units of its last kept place. */
  lemma ExcessFloor(x: nat)
    requires Excess(x) > 0
    ensures T52 * Pow2(Excess(x)) <= x
  {
    var k, s := 52, Excess(x);
    T52Is(k);
    Pow2Add(k, s);
  }

  lemma NearestOnCoarseGrid(x: nat, s: nat, m: nat, j: nat, k: nat)
    requires j >= s + k
    ensures Dist(x, RoundedQuotient(x, Pow2(s)) * Pow2(s)) * Pow2(k) <= Dist(x * Pow2(k), m * Pow2(j))
  {
    CoarseGrid(m, j, s, k);
    NearestScaled(x, Pow2(s), Pow2(k), m * Pow2(j - s - k), m * Pow2(j));
  }

  lemma NearestBelowLeadingBit(x: nat, s: nat, m: nat, j: nat, k: nat)
    requires s > 0 && m < T53 && j < s + k && T52 * Pow2(s) <= x
    ensures Dist(x, RoundedQuotient(x, Pow2(s)) * Pow2(s)) * Pow2(k) <= Dist(x * Pow2(k), m * Pow2(j))
  {
    BelowTheLeadingBit(m, j, s, k);
    NearestBelow(x, Pow2(s), Pow2(k), T52, m * Pow2(j));
  }

  /** Among all numbers m * 2^j / 2^k with 53 significant bits, none is closer to x. */
  lemma RoundTo53IsNearest(x: nat, m: nat, j: nat, k: nat)
    requires m < T53
    ensures Dist(x, RoundTo53(x)) * Pow2(k) <= Dist(x * Pow2(k), m * Pow2(j))
  {
    var s := Excess(x);
    if s == 0 {
      assert RoundTo53(x) == x;
    } else if j >= s + k {
      NearestOnCoarseGrid(x, s, m, j, k);
    } else {
      ExcessFloor(x);
      NearestBelowLeadingBit(x, s, m, j, k);
    }
  }

  /** Half way between two candidates, the one with the even significand is chosen. */
  lemma TiesGoToEven(x: nat)
    ensures 2 * Dist(x, RoundTo53(x)) == Pow2(Excess(x)) ==> RoundTo53(x) / Pow2(Excess(x)) % 2 == 0
  {
    var d := Pow2(Excess(x));
    RoundedQuotientNearest(x, d, 0);
    DivModUnique(RoundTo53(x), d, RoundedQuotient(x, d), 0);
  }

  // ----- the conversion -----

  lemma T75Is(k: nat)
    requires k == 75
    ensures Pow2(k) == T75
  {
    WordSizes();
    var n := 11;
    assert Pow2(n) == 0x800;
    Pow2Add(64, n);
  }

  /** `left_aligned >> 75`: 53 bits above the border of the halves, the dropped ones below. */
  function Middle(left: U256): (r: U256)
    ensures Val(r) == Val(left) / T75
  {
    T75Is(75);
    Shr(left, 75)
  }

  /** The dropped bits squeezed into one word: their top bit, and whether any other is set. */
  function Dropped(left: U256): (r: u128)
    ensures r / T127 == Val(left) % T203 / T202
    ensures r % T127 == 0 <==> Val(left) % T202 == 0
  {
    DroppedBits(left);
    Or(Middle(left).lo, And(left.lo, 0x7FF_FFFF_FFFF_FFFF_FFFF))
  }

  lemma Mask75(x: nat)
    ensures And(x, 0x7FF_FFFF_FFFF_FFFF_FFFF) == x % T75
  {
    var k := 75;
    T75Is(k);
    AndMask(x, k);
  }

  /** The words of the aligned number after the shift by 75. */
  lemma ShiftedWords(left: U256)
    ensures Middle(left).hi == Val(left) / T203
    ensures Middle(left).lo == Val(left) / T75 % B
    ensures left.lo % T75 == Val(left) % T75
  {
    var x, mid := Val(left), Middle(left);
    DivModUnique(x / T75, B, mid.hi, mid.lo);
    DivDiv(x, T75, B);
    var c: nat := B / T75;
    assert left.hi * B == (left.hi * c) * T75;
    ModAddMultiple(left.lo, left.hi * c, T75);
  }

  /** "Or" with bits below position n leaves bit n alone and collects the rest. */
  lemma OrBelow(a: nat, b: nat, n: nat)
    requires a < Pow2(n + 1) && b < Pow2(n)
    ensures Or(a, b) < Pow2(n + 1)
    ensures Or(a, b) / Pow2(n) == a / Pow2(n)
    ensures Or(a, b) % Pow2(n) == 0 <==> a % Pow2(n) == 0 && b == 0
  {
    var t := Pow2(n);
    OrSplit(a, b, n);
    SmallMod(b, t);
    DivNonNeg(a, t);
    OrZero(a / t);
    OrIsZero(a % t, b);
    assert Pow2(n + 1) == 2 * t;
    DivLess(a, t, 2);
    DivLess(Or(a, b), t, 2);
  }

  /** Where the bits of x modulo 2 * p * t sit in the quotient and the remainder by p. */
  lemma SplitRemainder(x: nat, p: nat, t: nat)
    requires p > 0 && t > 0
    ensures p * t > 0 && p * (2 * t) > 0
    ensures x / p % (2 * t) / t == x % (p * (2 * t)) / (p * t)
    ensures x / p % (2 * t) % t == 0 && x % p == 0 <==> x % (p * t) == 0
  {
    DivDiv(x, p, 2 * t);
    DivDiv(x % (p * (2 * t)), p, t);
    DivNonNeg(x, p);
    DivDiv(x / p, t, 2);
    DivDiv(x, p, t);
    assert t * 2 == 2 * t;
    SumIsZero(x / p % t, p, x % p);
  }

  lemma SumIsZero(a: nat, p: nat, b: nat)
    requires p > 0
    ensures a * p + b == 0 <==> a == 0 && b == 0
  {
    if a > 0 {
      MulMono(1, a, p);
    }
  }

  lemma DroppedOf(x: nat, r: nat)
    requires r == Or(x / T75 % B, x % T75)
    ensures r < B
    ensures r / T127 == x % T203 / T202
    ensures r % T127 == 0 <==> x % T202 == 0
  {
    var n := 127;
    assert T127 == Pow2(n) && Pow2(n + 1) == B by {
      WordSizes();
      assert Pow2(n + 1) == 2 * Pow2(n);
    }
    SplitRemainder(x, T75, T127);
    OrBelow(x / T75 % B, x % T75, n);
  }

  lemma DroppedBits(left: U256)
    ensures var r := Or(Middle(left).lo, And(left.lo, 0x7FF_FFFF_FFFF_FFFF_FFFF));
            && r < B
            && r / T127 == Val(left) % T203 / T202
            && (r % T127 == 0 <==> Val(left) % T202 == 0)
  {
    Mask75(left.lo);
    ShiftedWords(left);
    DroppedOf(Val(left), Or(Middle(left).lo, And(left.lo, 0x7FF_FFFF_FFFF_FFFF_FFFF)));
  }

  /** The rounding carry: round up above one half, and at one half if the mantissa is odd. */
  function Carry(mantissa: u128, dropped: u128): (c: nat)
    ensures c == if dropped >= T127 && (mantissa % 2 == 1 || dropped % T127 != 0) then 1 else 0
  {
    var top := dropped / T127;
    BorrowBit(mantissa, top, dropped);
    CarryBit(mantissa, dropped, top, And(top, Not128(mantissa)));
    (dropped - And(top, Not128(mantissa))) / T127
  }

  lemma BorrowBit(mantissa: u128, top: nat, dropped: u128)
    requires top == dropped / T127
    ensures 0 <= top <= 1
    ensures And(top, Not128(mantissa)) == if top == 1 && mantissa % 2 == 0 then 1 else 0
  {
    DivLess(dropped, T127, 2);
    var y := Not128(mantissa);
    NotParity(mantissa);
    assert And(0, y) == 0 && And(0, y / 2) == 0;
    assert And(1, y) == y % 2;
  }

  lemma NotParity(x: u128)
    ensures Not128(x) % 2 == 1 - x % 2
  {
    assert Not128(x) == 0xFFFF_FFFF_FFFF_FFFF_FFFF_FFFF_FFFF_FFFF - x;
  }

  lemma CarryBit(mantissa: u128, dropped: u128, top: nat, borrow: nat)
    requires top == dropped / T127 <= 1
    requires borrow == if top == 1 && mantissa % 2 == 0 then 1 else 0
    ensures borrow <= dropped
    ensures (dropped - borrow) / T127
         == if dropped >= T127 && (mantissa % 2 == 1 || dropped % T127 != 0) then 1 else 0
  {
    DivModOf(dropped, T127);
    var r := dropped % T127;
    if borrow == 1 {
      if r == 0 {
        DivModUnique(dropped - 1, T127, 0, T127 - 1);
      } else {
        DivModUnique(dropped - 1, T127, 1, r - 1);
      }
    }
  }

  /** Mantissa plus carry: the aligned number divided by 2^203 and rounded. */
  function RoundedMantissa(left: U256): (m: nat)
    ensures m == RoundedQuotient(Val(left), T203)
  {
    ShiftedWords(left);
    HalfCompare(Val(left), T202, T127, Dropped(left));
    Middle(left).hi + Carry(Middle(left).hi, Dropped(left))
  }

  /** The squeezed word tells how the remainder compares with one half. */
  lemma HalfCompare(x: nat, h: nat, t: nat, dropped: nat)
    requires h > 0 && t > 0 && dropped / t == x % (2 * h) / h && (dropped % t == 0 <==> x % h == 0)
    ensures dropped >= t <==> 2 * (x % (2 * h)) >= 2 * h
    ensures dropped >= t && dropped % t == 0 ==> 2 * (x % (2 * h)) == 2 * h
    ensures dropped >= t && dropped % t != 0 ==> 2 * (x % (2 * h)) > 2 * h
  {
    var r := x % (2 * h);
    DivLess(dropped, t, 1);
    DivLess(r, h, 1);
    DivLess(r, h, 2);
    DivModOf(r, h);
    assert h * 2 == 2 * h;
    DivDiv(x, h, 2);
  }

  lemma RoundedQuotientScale(x: nat, d: nat, c: nat)
    requires d > 0 && c > 0
    ensures d * c > 0 && RoundedQuotient(x * c, d * c) == RoundedQuotient(x, d)
  {
    MulStrict(0, d, c);
    assert c * d == d * c;
    ScaleMod(x, c, d);
    HalfScaled(x % d, d, c);
  }

  /** Scaling keeps a number on its side of one half. */
  lemma HalfScaled(r: nat, d: nat, c: nat)
    requires c > 0
    ensures 2 * (r * c) < d * c <==> 2 * r < d
    ensures 2 * (r * c) > d * c <==> 2 * r > d
  {
    assert 2 * (r * c) == (2 * r) * c;
    if 2 * r < d {
      MulStrict(2 * r, d, c);
    } else if 2 * r > d {
      MulStrict(d, 2 * r, c);
    }
  }

  lemma RoundedQuotientExact(z: nat, d: nat)
    requires d > 0
    ensures RoundedQuotient(z * d, d) == z
  {
    DivModUnique(z * d, d, z, 0);
  }

  lemma T203Is(k: nat)
    requires k == 203
    ensures Pow2(k) == T203
  {
    WordSizes();
    var n := 75;
    T75Is(n);
    Pow2Add(n, 128);
  }

  lemma T53Is(k: nat)
    requires k == 53
    ensures Pow2(k) == T53
  {
    T52Is(k - 1);
  }

  lemma AlignedRoundingDown(x: nat, n: nat, c: nat, a: nat)
    requires 53 < n == BitLen(x) <= 256 && c == Pow2(256 - n) && a == x * c
    ensures RoundedQuotient(a, T203) * Pow2(n) == RoundTo53(x) * T53
  {
    var k, p := 203, 53;
    T203Is(k);
    T53Is(p);
    var d := Pow2(n - p);
    Pow2Add(n - p, 256 - n);
    RoundedQuotientScale(x, d, c);
    Pow2Add(n - p, p);
    MulAssoc(RoundedQuotient(x, d), d, T53);
  }

  lemma AlignedExact(x: nat, n: nat, c: nat, a: nat)
    requires 0 < n == BitLen(x) <= 53 && c == Pow2(256 - n) && a == x * c
    ensures RoundedQuotient(a, T203) * Pow2(n) == RoundTo53(x) * T53
  {
    var k, p := 203, 53;
    T203Is(k);
    T53Is(p);
    var g := Pow2(p - n);
    Pow2Add(p - n, k);
    MulMono(0, x, g);
    var z := x * g;
    MulAssoc(x, g, T203);
    RoundedQuotientExact(z, T203);
    Pow2Add(p - n, n);
    MulAssoc(x, g, Pow2(n));
    RoundedQuotientExact(x, 1);
  }

  /**
   The rounded mantissa m of x aligned to 256 bits, n its bit length, is the 53-bit rounding
   of x, and lies between 2^52 and 2^53.
   */
  lemma AlignedRounding(x: nat, n: nat, a: nat)
    requires 0 < n == BitLen(x) <= 256 && a == x * Pow2(256 - n)
    ensures RoundedQuotient(a, T203) * Pow2(n) == RoundTo53(x) * T53
    ensures T52 <= RoundedQuotient(a, T203) <= T53
  {
    AlignedBounds(x, n, a);
    MantissaRange(a);
    if n > 53 {
      AlignedRoundingDown(x, n, Pow2(256 - n), a);
    } else {
      AlignedExact(x, n, Pow2(256 - n), a);
    }
  }

  lemma AlignedBounds(x: nat, n: nat, a: int)
    requires 0 < n == BitLen(x) <= 256 && a == x * Pow2(256 - n)
    ensures 0 <= a && MODULUS <= 2 * a < 2 * MODULUS
  {
    var c, h := Pow2(256 - n), Pow2(n - 1);
    ModulusIsPow2();
    Pow2Add(n, 256 - n);
    MulStrict(x, Pow2(n), c);
    assert Pow2(n) == 2 * h;
    MulAssoc(2, h, c);
    MulMono(h, x, c);
  }

  lemma MantissaRange(a: nat)
    requires MODULUS <= 2 * a < 2 * MODULUS
    ensures T52 <= RoundedQuotient(a, T203) <= T53
  {
    assert MODULUS == T53 * T203 == 2 * (T52 * T203);
    DivLess(a, T203, T53);
    DivLess(a, T203, T52);
  }

  /** A mantissa of 53 bits, or 2^53 after a carry, put next to its exponent. */
  lemma FieldsDenote(m: nat, n: nat, v: nat)
    requires T52 <= m <= T53 && 0 < n <= 256 && m * Pow2(n) == v * T53
    ensures Denotes((1021 + n) * T52 + m, v)
  {
    var e := if m < T53 then 1022 + n else 1023 + n;
    var f := if m < T53 then m - T52 else 0;
    DivModUnique((1021 + n) * T52 + m, T52, e, f);
    var h := Pow2(n - 1);
    assert Pow2(n) == 2 * h;
    assert m * Pow2(n) == 2 * (m * h);
  }

  lemma MantissaIsOneWord(m: nat)
    requires m <= T53
    ensures m % W == m
  {
    SmallMod(m, W);
  }

  lemma NormalPattern(x: nat, n: nat, a: nat, mantissa: nat)
    requires 0 < n == BitLen(x) <= 256 && a == x * Pow2(256 - n)
    requires mantissa == RoundedQuotient(a, T203) % W
    ensures Denotes((1021 + n) * T52 + mantissa, RoundTo53(x))
  {
    AlignedRounding(x, n, a);
    MantissaIsOneWord(RoundedQuotient(a, T203));
    FieldsDenote(mantissa, n, RoundTo53(x));
  }

  lemma ZeroPattern()
    ensures RoundedQuotient(0, T203) == 0
    ensures Denotes(0, RoundTo53(0))
  {
    RoundedQuotientExact(0, T203);
    RoundedQuotientExact(0, 1);
  }

  /** Shifting out the leading zeros; zero has 256 of them, which the mask turns into none. */
  lemma LeftAligned(u: U256, left: U256)
    requires left == Shl(u, (256 - Bits(u)) % 256)
    ensures u == ZERO ==> Val(left) == 0
    ensures u != ZERO ==> Bits(u) > 0 && Val(left) == Val(u) * Pow2(256 - Bits(u))
  {
    var x, n := Val(u), Bits(u);
    if u == ZERO {
      ShlExact(u, 0);
    } else {
      if x == 0 {
        ValInjective(u, ZERO);
      }
      ghost var a: int := x * Pow2(256 - n);
      AlignedBounds(x, n, a);
      ShlExact(u, 256 - n);
    }
  }

  lemma PatternDenotes(zero: bool, x: nat, n: nat, a: nat, mantissa: nat, exponent: nat)
    requires zero ==> x == 0 && a == 0 && exponent == 0
    requires !zero ==> 0 < n == BitLen(x) <= 256 && a == x * Pow2(256 - n) && exponent == 1021 + n
    requires mantissa == RoundedQuotient(a, T203) % W
    ensures Denotes(exponent * T52 + mantissa, RoundTo53(x))
  {
    if zero {
      ZeroPattern();
    } else {
      NormalPattern(x, n, a, mantissa);
    }
  }

  /** `to_f64`, as the bit pattern of the result. */
  function ToF64Bits(u: U256): (bits: nat)
    ensures Denotes(bits, RoundTo53(Val(u)))
  {
    var leadingZeroes := 256 - Bits(u);
    var left := Shl(u, leadingZeroes % 256);
    var mantissa := RoundedMantissa(left) % W;
    var exponent := if u == ZERO then 0 else 1277 - leadingZeroes;
    LeftAligned(u, left);
    PatternDenotes(u == ZERO, Val(u), Bits(u), Val(left), mantissa, exponent);
    exponent * T52 + mantissa
  }
}
