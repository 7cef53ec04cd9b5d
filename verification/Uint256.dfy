/**
 256-bit unsigned integers as two 128-bit halves: the word-level algorithms, proved against
 plain integer arithmetic modulo 2^256.
 */
module Uint256 {
  import opened Arith
  import opened Bitwise
  import opened Words
  import opened Radix

  const B: nat := 0x1_0000_0000_0000_0000_0000_0000_0000_0000
  const MODULUS: nat := 0x1_0000_0000_0000_0000_0000_0000_0000_0000_0000_0000_0000_0000_0000_0000_0000_0000

  datatype U256 = U256(hi: u128, lo: u128)

  const ZERO := U256(0, 0)
  const ONE := U256(0, 1)
  const MAX := U256(B - 1, B - 1)

  /** The number a pair of halves stands for. */
  function Val(u: U256): (v: nat)
    ensures v < MODULUS
  {
    ValBound(u.hi, u.lo);
    u.hi * B + u.lo
  }

  function OfNat(v: nat): (u: U256)
    requires v < MODULUS
    ensures Val(u) == v
  {
    DivLess(v, B, B);
    DivNonNeg(v, B);
    U256(v / B, v % B)
  }

  lemma ValBound(hi: u128, lo: u128)
    ensures 0 <= hi * B + lo < MODULUS
  {
    MulMono(hi, B - 1, B);
  }

  lemma ValInjective(u: U256, w: U256)
    requires Val(u) == Val(w)
    ensures u == w
  {
    DivModUnique(Val(u), B, u.hi, u.lo);
    DivModUnique(Val(w), B, w.hi, w.lo);
  }

  lemma ModulusIsPow2()
    ensures B == Pow2(128) && MODULUS == Pow2(256)
  {
    WordSizes();
    var k, n := 128, 256;
    Pow2Double(k, n, B);
  }

  // ----- 128-bit primitives of the language -----

  function Shl128(x: u128, k: nat): (r: u128)
    requires k < 128
  {
    x * Pow2(k) % B
  }

  function Shr128(x: u128, k: nat): (r: u128)
    requires k < 128
  {
    DivNonNeg(x, Pow2(k));
    x / Pow2(k)
  }

  function Not128(x: u128): u128 {
    B - 1 - x
  }

  // ----- bit length -----

  /** The least n with x < 2^n. */
  function BitLen(x: nat): (n: nat)
    ensures x < Pow2(n)
    ensures n > 0 ==> Pow2(n - 1) <= x
  {
    if x == 0 then 0 else 1 + BitLen(x / 2)
  }

  lemma BitLenUnique(x: nat, n: nat)
    requires x < Pow2(n) && (n > 0 ==> Pow2(n - 1) <= x)
    ensures BitLen(x) == n
  {
    var m := BitLen(x);
    if m < n {
      Pow2Mono(m, n - 1);
    } else if n < m {
      Pow2Mono(n, m - 1);
    }
  }

  lemma BitLenBound(x: nat, n: nat)
    requires x < Pow2(n)
    ensures BitLen(x) <= n
  {
    if x > 0 {
      assert n > 0;
      BitLenBound(x / 2, n - 1);
    }
  }

  lemma BitLenMono(x: nat, y: nat)
    requires x <= y
    ensures BitLen(x) <= BitLen(y)
  {
    BitLenBound(x, BitLen(y));
  }

  lemma FewerBits(x: nat, y: nat)
    requires BitLen(x) < BitLen(y)
    ensures x < y
  {
    if y <= x {
      BitLenMono(y, x);
    }
  }

  function LeadingZeros128(x: u128): nat {
    ModulusIsPow2();
    BitLenBound(x, 128);
    128 - BitLen(x)
  }

  /** `bits`: the number of significant bits, computed from the leading zeros of one half. */
  function Bits(u: U256): (n: nat)
    ensures n == BitLen(Val(u)) && n <= 256
  {
    BitsOfHalves(u);
    if u.hi > 0 then 256 - LeadingZeros128(u.hi) else 128 - LeadingZeros128(u.lo)
  }

  lemma BitsOfHalves(u: U256)
    ensures BitLen(Val(u)) <= 256
    ensures u.hi > 0 ==> BitLen(Val(u)) == 128 + BitLen(u.hi)
    ensures u.hi == 0 ==> BitLen(Val(u)) == BitLen(u.lo)
  {
    ModulusIsPow2();
    BitLenBound(Val(u), 256);
    if u.hi > 0 {
      var n := BitLen(u.hi);
      Pow2Add(n, 128);
      Pow2Add(n - 1, 128);
      MulMono(u.hi + 1, Pow2(n), B);
      MulMono(Pow2(n - 1), u.hi, B);
      BitLenUnique(Val(u), 128 + n);
    }
  }

  // ----- shifts -----

  /** Left shift, dropping what leaves the word. */
  function Shl(u: U256, s: nat): (r: U256)
    requires s < 256
  {
    OfNat(Val(u) * Pow2(s) % MODULUS)
  }

  function Shr(u: U256, s: nat): (r: U256)
    requires s < 256
  {
    DivNonNeg(Val(u), Pow2(s));
    OfNat(Val(u) / Pow2(s))
  }

  lemma ShlValue(u: U256, s: nat)
    requires s < 256
    ensures Val(Shl(u, s)) == Val(u) * Pow2(s) % MODULUS
  {
  }

  lemma ShrValue(u: U256, s: nat)
    requires s < 256
    ensures Val(Shr(u, s)) == Val(u) / Pow2(s)
  {
  }

  /** A left shift by k < 128 bits on two words, with p = 2^k and q = 2^(128-k). */
  lemma ShlWords(hi: u128, lo: u128, p: nat, q: nat)
    requires p > 0 && q > 0 && p * q == B
    ensures hi * p % B == (hi % q) * p
    ensures lo * p % B == (lo % q) * p
    ensures 0 <= lo / q < p
    ensures (hi * p) % B + lo / q < B
    ensures (hi * B + lo) * p % MODULUS == ((hi * p) % B + lo / q) * B + lo * p % B
  {
    ScaleMod(hi, p, q);
    ScaleMod(lo, p, q);
    DivLess(lo, q, p);
    DivNonNeg(lo, q);
    MulMono(hi % q, q - 1, p);
    var h, l := (hi % q) * p + lo / q, (lo % q) * p;
    ShlAlgebra(hi, lo, p, hi / q, (hi % q) * p, lo / q, l, B);
    ValBound(h, l);
    DivModUnique((hi * B + lo) * p, MODULUS, hi / q, h * B + l);
  }

  lemma ShlAlgebra(hi: int, lo: int, p: int, k: int, a: int, c: int, l: int, b: int)
    requires hi * p == k * b + a && lo * p == c * b + l
    ensures (hi * b + lo) * p == k * (b * b) + ((a + c) * b + l)
  {
    assert (hi * b + lo) * p == (hi * p) * b + lo * p;
  }

  /** A left shift by 128 + k bits moves the low word up. */
  lemma ShlHighWord(hi: u128, lo: u128, p: nat)
    requires p > 0
    ensures (hi * B + lo) * (B * p) % MODULUS == (lo * p % B) * B
  {
    var x := (hi * B + lo) * p;
    assert x == lo * p + (hi * p) * B;
    ModAddMultiple(lo * p, hi * p, B);
    MulAssoc(hi * B + lo, p, B);
    assert (hi * B + lo) * (B * p) == x * B;
    ScaleMod(x, B, B);
  }

  lemma ShlHalves(u: U256, s: nat)
    requires s < 256
    ensures s >= 128 ==> Shl(u, s) == U256(Shl128(u.lo, s - 128), 0)
    ensures 0 < s < 128 ==> Shl128(u.hi, s) + Shr128(u.lo, 128 - s) < B
    ensures 0 < s < 128 ==> Shl(u, s) == U256(Shl128(u.hi, s) + Shr128(u.lo, 128 - s), Shl128(u.lo, s))
    ensures s == 0 ==> Shl(u, s) == U256(Shl128(u.hi, s), Shl128(u.lo, s)) == u
  {
    ModulusIsPow2();
    if s >= 128 {
      Pow2Split(128, s);
      ShlHighWord(u.hi, u.lo, Pow2(s - 128));
      ValInjective(Shl(u, s), U256(Shl128(u.lo, s - 128), 0));
    } else if s > 0 {
      Pow2Split(s, 128);
      ShlWords(u.hi, u.lo, Pow2(s), Pow2(128 - s));
      ValInjective(Shl(u, s), U256(Shl128(u.hi, s) + Shr128(u.lo, 128 - s), Shl128(u.lo, s)));
    } else {
      SmallMod(u.hi, B);
      SmallMod(u.lo, B);
      SmallMod(Val(u), MODULUS);
      ValInjective(Shl(u, s), u);
    }
  }

  lemma ShlExact(u: U256, s: nat)
    requires s < 256 && Val(u) * Pow2(s) < MODULUS
    ensures Val(Shl(u, s)) == Val(u) * Pow2(s)
  {
    SmallMod(Val(u) * Pow2(s), MODULUS);
  }

  /** The distance masked with 0xff. */
  method MaskShift(rhs: u32) returns (shift: nat)
    ensures shift == rhs % 256
  {
    shift := And(rhs, 0xff);
    WordSizes();
    AndMask(rhs, 8);
  }

  /** `wrapping_shl`. */
  method WrappingShl(u: U256, rhs: u32) returns (ret: U256)
    ensures ret == Shl(u, rhs % 256) && Val(ret) == Val(u) * Pow2(rhs % 256) % MODULUS
  {
    hide Shl, Shl128, Shr128, Val, OfNat, Pow2;
    ShlValue(u, rhs % 256);
    var shift := MaskShift(rhs);
    ShlHalves(u, shift);
    ret := ZERO;
    var bitShift := shift % 128;
    if shift >= 128 {
      assert bitShift == shift - 128;
      ret := ret.(hi := Shl128(u.lo, bitShift));
    } else {
      assert bitShift == shift;
      ret := ret.(hi := Shl128(u.hi, bitShift));
      if bitShift > 0 {
        ret := ret.(hi := ret.hi + Shr128(u.lo, 128 - bitShift));
      }
      ret := ret.(lo := Shl128(u.lo, bitShift));
    }
  }

  lemma ShrWords(hi: u128, lo: u128, p: nat, q: nat)
    requires p > 0 && q > 0 && p * q == B
    ensures hi * q % B == (hi % p) * q
    ensures 0 <= lo / p < q && 0 <= hi / p < B
    ensures lo / p + hi * q % B < B
    ensures (hi * B + lo) / p == (hi / p) * B + (lo / p + hi * q % B)
  {
    ShrBounds(hi, lo, p, q, B);
    ShrQuotient(hi, lo, p, q, B);
  }

  lemma ShrBounds(hi: nat, lo: nat, p: nat, q: nat, b: nat)
    requires p > 0 && q > 0 && p * q == b && hi < b && lo < b
    ensures hi * q % b == (hi % p) * q
    ensures 0 <= lo / p < q && 0 <= hi / p < b
    ensures lo / p + hi * q % b < b
  {
    assert q * p == b;
    ScaleMod(hi, q, p);
    DivLess(lo, p, q);
    DivNonNeg(lo, p);
    DivNonNeg(hi, p);
    DivModOf(hi, p);
    MulMono(1, p, hi / p);
    MulMono(hi % p, p - 1, q);
    assert (p - 1) * q == b - q;
  }

  lemma ShrQuotient(hi: nat, lo: nat, p: nat, q: nat, b: nat)
    requires p > 0 && b == p * q
    ensures (hi * b + lo) / p == (hi / p) * b + (lo / p + (hi % p) * q)
  {
    DivModOf(hi, p);
    DivModOf(lo, p);
    var h, m := hi / p, hi % p;
    ShrAlgebra(hi, h, m, p, q, b);
    var l := m * q + lo / p;
    assert hi * b + lo == (h * b + l) * p + lo % p;
    DivModUnique(hi * b + lo, p, h * b + l, lo % p);
  }

  lemma ShrAlgebra(hi: int, h: int, m: int, p: int, q: int, b: int)
    requires hi == h * p + m && b == p * q
    ensures hi * b == (h * b + m * q) * p
  {
    assert hi * b == h * p * b + m * b;
    assert m * b == m * q * p;
  }

  lemma ShrHighWord(hi: u128, lo: u128, p: nat)
    requires p > 0
    ensures (hi * B + lo) / (B * p) == hi / p
  {
    DivDiv(hi * B + lo, B, p);
    DivModUnique(hi * B + lo, B, hi, lo);
  }

  lemma ShrHalves(u: U256, s: nat)
    requires s < 256
    ensures s >= 128 ==> Shr(u, s) == U256(0, Shr128(u.hi, s - 128))
    ensures 0 < s < 128 ==> Shr128(u.lo, s) + Shl128(u.hi, 128 - s) < B
    ensures 0 < s < 128 ==> Shr(u, s) == U256(Shr128(u.hi, s), Shr128(u.lo, s) + Shl128(u.hi, 128 - s))
    ensures s == 0 ==> Shr(u, s) == U256(Shr128(u.hi, s), Shr128(u.lo, s)) == u
  {
    ModulusIsPow2();
    if s >= 128 {
      Pow2Split(128, s);
      ShrHighWord(u.hi, u.lo, Pow2(s - 128));
      ValInjective(Shr(u, s), U256(0, Shr128(u.hi, s - 128)));
    } else if s > 0 {
      Pow2Split(s, 128);
      ShrWords(u.hi, u.lo, Pow2(s), Pow2(128 - s));
      ValInjective(Shr(u, s), U256(Shr128(u.hi, s), Shr128(u.lo, s) + Shl128(u.hi, 128 - s)));
    } else {
      assert Val(u) / Pow2(0) == Val(u);
      ValInjective(Shr(u, s), u);
    }
  }

  /** `wrapping_shr`. */
  method WrappingShr(u: U256, rhs: u32) returns (ret: U256)
    ensures ret == Shr(u, rhs % 256) && Val(ret) == Val(u) / Pow2(rhs % 256)
  {
    hide Shr, Shl128, Shr128, Val, OfNat, Pow2;
    ShrValue(u, rhs % 256);
    var shift := MaskShift(rhs);
    ShrHalves(u, shift);
    ret := ZERO;
    var bitShift := shift % 128;
    if shift >= 128 {
      assert bitShift == shift - 128;
      ret := ret.(lo := Shr128(u.hi, bitShift));
    } else {
      assert bitShift == shift;
      ret := ret.(hi := Shr128(u.hi, bitShift));
      ret := ret.(lo := Shr128(u.lo, bitShift));
      if bitShift > 0 {
        ret := ret.(lo := ret.lo + Shl128(u.hi, 128 - bitShift));
      }
    }
  }

  // ----- addition and subtraction -----

  function Sum(u: U256, w: U256): (r: U256) {
    OfNat((Val(u) + Val(w)) % MODULUS)
  }

  function OverflowingAdd128(x: u128, y: u128): (r: (u128, bool))
    ensures r.0 == if r.1 then x + y - B else x + y
  {
    DivModUnique(x + y, B, if x + y >= B then 1 else 0, if x + y >= B then x + y - B else x + y);
    ((x + y) % B, x + y >= B)
  }

  /** Adding halves: the carry c out of the low half goes into the high one. */
  lemma SumHalves(u: U256, w: U256, r: U256, c: nat, d: nat)
    requires c <= 1 && d <= 1
    requires u.lo + w.lo == r.lo + c * B
    requires u.hi + w.hi + c == r.hi + d * B
    ensures Sum(u, w) == r
    ensures Val(u) + Val(w) >= MODULUS <==> d == 1
  {
    ValBound(r.hi, r.lo);
    assert Val(u) + Val(w) == d * MODULUS + Val(r);
    DivModUnique(Val(u) + Val(w), MODULUS, d, Val(r));
    ValInjective(Sum(u, w), r);
  }

  /** `overflowing_add`. */
  method OverflowingAdd(u: U256, w: U256) returns (ret: U256, overflow: bool)
    ensures ret == Sum(u, w) && Val(ret) == (Val(u) + Val(w)) % MODULUS
    ensures overflow <==> Val(u) + Val(w) >= MODULUS
  {
    ret, overflow := ZERO, false;
    var (high, o1) := OverflowingAdd128(u.hi, w.hi);
    ret := ret.(hi := high);
    overflow := overflow || o1;
    var (low, o2) := OverflowingAdd128(u.lo, w.lo);
    ret := ret.(lo := low);
    if o2 {
      var (high', o3) := OverflowingAdd128(ret.hi, 1);
      ret := ret.(hi := high');
      overflow := overflow || o3;
    }
    SumHalves(u, w, ret, if o2 then 1 else 0, if overflow then 1 else 0);
  }

  function Not(u: U256): (r: U256)
    ensures Val(r) == MODULUS - 1 - Val(u)
  {
    U256(Not128(u.hi), Not128(u.lo))
  }

  predicate Less(u: U256, w: U256) {
    u.hi < w.hi || (u.hi == w.hi && u.lo < w.lo)
  }

  lemma LessIsValLess(u: U256, w: U256)
    ensures Less(u, w) <==> Val(u) < Val(w)
  {
    if u.hi < w.hi {
      MulMono(u.hi + 1, w.hi, B);
    } else if w.hi < u.hi {
      MulMono(w.hi + 1, u.hi, B);
    }
  }

  /** `overflowing_sub`: adding the complement and one subtracts modulo 2^256. */
  function OverflowingSub(u: U256, w: U256): (r: (U256, bool))
    ensures Val(r.0) == (Val(u) - Val(w)) % MODULUS
    ensures r.1 <==> Val(u) < Val(w)
  {
    LessIsValLess(u, w);
    SubByComplement(Val(u), Val(w), MODULUS);
    (Sum(Sum(u, Not(w)), ONE), Less(u, w))
  }

  lemma SubByComplement(x: nat, y: nat, m: nat)
    requires y < m
    ensures ((x + (m - 1 - y)) % m + 1) % m == (x - y) % m
  {
    var z := x + (m - 1 - y);
    DivModOf(z, m);
    ModAddMultiple(z % m + 1, z / m, m);
    ModAddMultiple(x - y, 1, m);
  }

  function WrappingSub(u: U256, w: U256): U256 {
    OverflowingSub(u, w).0
  }

  /** `wrapping_inc`. */
  method WrappingInc(u: U256) returns (ret: U256)
    ensures ret == Sum(u, ONE) && Val(ret) == (Val(u) + 1) % MODULUS
  {
    ret := ZERO.(lo := OverflowingAdd128(u.lo, 1).0);
    if ret.lo == 0 {
      ret := ret.(hi := OverflowingAdd128(u.hi, 1).0);
    } else {
      ret := ret.(hi := u.hi);
    }
    SumHalves(u, ONE, ret, if ret.lo == 0 then 1 else 0, if u.hi == B - 1 && ret.lo == 0 then 1 else 0);
  }

  // ----- multiplication by a 64-bit word -----

  const W: nat := 0x1_0000_0000_0000_0000

  lemma FourWords(ws: seq<u64>)
    requires |ws| == 4
    ensures ValueLe(W, ws) == ws[0] + ws[1] * W + (ws[2] + ws[3] * W) * B
    ensures Pow(W, 4) == MODULUS
  {
    assert Pow(W, 0) == 1;
    assert Pow(W, 1) == W;
    assert Pow(W, 2) == B;
    assert Pow(W, 3) == W * B;
    assert Pow(W, 4) == W * Pow(W, 3);
    FourDigits(W, ws[0], ws[1], ws[2], ws[3]);
    assert ws == [ws[0], ws[1], ws[2], ws[3]];
  }

  lemma FourDigits(b: nat, w0: nat, w1: nat, w2: nat, w3: nat)
    ensures ValueLe(b, [w0, w1, w2, w3]) == w0 * Pow(b, 0) + w1 * Pow(b, 1) + w2 * Pow(b, 2) + w3 * Pow(b, 3)
  {
    assert Rev([]) == [] && ValueLe(b, []) == 0;
    hide ValueLe, Pow;
    ValueLeSnoc(b, [], w0);
    ValueLeSnoc(b, [w0], w1);
    ValueLeSnoc(b, [w0, w1], w2);
    ValueLeSnoc(b, [w0, w1, w2], w3);
    assert [] + [w0] == [w0] && [w0] + [w1] == [w0, w1] && [w0, w1] + [w2] == [w0, w1, w2]
        && [w0, w1, w2] + [w3] == [w0, w1, w2, w3];
  }

  /** Two 64-bit words glued with a shift and an "or". */
  function Glue(low: u64, high: u64): (r: u128)
    ensures r == low + high * W
  {
    WordSizes();
    assert high * W < B;
    SmallMod(high * W, B);
    OrComm(low, Shl128(high, 64));
    OrDisjoint(high, 64, low);
    Or(low, Shl128(high, 64))
  }

  method SplitWords(u: U256) returns (words: array<u64>)
    ensures fresh(words) && words.Length == 4
    ensures ValueLe(W, words[..]) == Val(u)
  {
    WordSizes();
    DivLess(u.lo, W, W);
    DivLess(u.hi, W, W);
    words := new u64[4] [u.lo % W, Shr128(u.lo, 64), u.hi % W, Shr128(u.hi, 64)];
    FourWords(words[..]);
    DivModOf(u.lo, W);
    DivModOf(u.hi, W);
  }

  /** The carry chain fits 128 bits. */
  lemma CarryFits(carry: nat, word: u64, rhs: u64, n: nat)
    requires carry < W && n == carry + rhs * word
    ensures 0 <= n < B && 0 <= n / W < W
  {
    MulMono(rhs, W - 1, word);
    MulMono(word, W - 1, W - 1);
    MulMono(0, rhs, word);
    DivLess(n, W, W);
    DivNonNeg(n, W);
  }

  lemma MulWrap(x: nat, y: nat, carry: nat, low: nat, m: nat)
    requires low + carry * m == y * x && low < m
    ensures x * y % m == low
    ensures x * y >= m <==> carry != 0
  {
    DivModUnique(x * y, m, carry, low);
    if carry != 0 {
      MulMono(1, carry, m);
    }
  }

  /** The word loop of `mul_u64`: every word multiplied in place, the carry handed upwards. */
  method MulWords(words: array<u64>, rhs: u64) returns (carry: u128)
    requires words.Length == 4
    modifies words
    ensures ValueLe(W, words[..]) + carry * Pow(W, 4) == rhs * ValueLe(W, old(words[..]))
  {
    hide ValueLe, Pow;
    carry := 0;
    ghost var orig := words[..];
    MulAddedStart(W, orig, rhs, 0);
    for i := 0 to 4
      invariant carry < W && MulAdded(W, words[..], orig, i, carry, rhs, 0)
    {
      CarryFits(carry, words[i], rhs, carry + rhs * words[i]);
      ghost var before := words[..];
      var n: u128 := carry + rhs * words[i];
      var word: u64 := n % W;
      MulAddedStep(W, before, orig, i, carry, rhs, 0, n, word);
      words[i] := word;
      carry := n / W;
      assert words[..] == before[i := word];
    }
    assert words[..][..4] == words[..] && orig[..4] == orig;
  }

  /** `mul_u64`: the wrapped product, and whether it wrapped. */
  method MulU64(u: U256, rhs: u64) returns (r: U256, overflow: bool)
    ensures Val(r) == Val(u) * rhs % MODULUS
    ensures overflow <==> Val(u) * rhs >= MODULUS
  {
    var words := SplitWords(u);
    var carry := MulWords(words, rhs);
    FourWords(words[..]);
    ValueLeBound(W, words[..]);
    r := U256(Glue(words[2], words[3]), Glue(words[0], words[1]));
    overflow := carry != 0;
    MulWrap(Val(u), rhs, carry, Val(r), MODULUS);
  }
}
