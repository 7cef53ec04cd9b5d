/**
 The full-width product of 256-bit integers. The algorithm adds the partial product of the top
 word without shifting it into place, so what is proved here is exactly when it is right.
 */
module Multiplication {
  import opened Arith
  import opened Words
  import opened Uint256

  const T192: nat := W * B

  lemma MulModLeft(a: nat, c: nat, m: nat)
    requires m > 0
    ensures (a % m) * c % m == a * c % m
  {
    DivModOf(a, m);
    var q := a / m;
    assert a * c == (a % m) * c + (q * c) * m;
    ModAddMultiple((a % m) * c, q * c, m);
  }

  lemma AddModBoth(a: int, b: int, m: nat)
    requires m > 0
    ensures (a % m + b % m) % m == (a + b) % m
  {
    DivModOf(a, m);
    DivModOf(b, m);
    var k := a / m + b / m;
    assert a + b == (a % m + b % m) + k * m;
    ModAddMultiple(a % m + b % m, k, m);
  }

  /** The next word of y extends its low part. */
  lemma NextWord(y: nat, p: nat)
    requires p > 0
    ensures p * W > 0 && y % (p * W) == y % p + p * (y / p % W)
  {
    DivDiv(y, p, W);
  }

  lemma WordWeight(i: nat)
    ensures Pow2(64 * i) == Pow(W, i)
  {
    if i > 0 {
      WordWeight(i - 1);
      WordSizes();
      Pow2Add(64, 64 * (i - 1));
    }
  }

  /** One partial product added in its place, modulo m. */
  lemma PartialProduct(x: nat, low: nat, t: nat, p: nat, m: nat)
    requires m > 0
    ensures (x * low % m + (x * t % m) * p % m) % m == x * (low + p * t) % m
  {
    ghost var a, b := x * low, x * t;
    MulModLeft(b, p, m);
    AddModBoth(a, b * p, m);
    Distribute(x, low, t, p);
  }

  lemma Distribute(x: int, low: int, t: int, p: int)
    ensures x * (low + p * t) == x * low + (x * t) * p
  {
    MulAssoc(x, t, p);
    assert p * t == t * p;
  }

  lemma PartialSum(x: nat, y: nat, p: nat, acc: nat, t: nat, prod: nat, shifted: nat, m: nat)
    requires m > 0 && p > 0 && t == y / p % W
    requires acc == x * (y % p) % m && prod == x * t % m && shifted == prod * p % m
    ensures p * W > 0 && (acc + shifted) % m == x * (y % (p * W)) % m
  {
    NextWord(y, p);
    PartialProduct(x, y % p, t, p, m);
  }

  /** Word i of a number. */
  method WordAt(w: U256, i: nat) returns (t: u64)
    requires i < 4
    ensures Pow(W, i) > 0 && t == Val(w) / Pow(W, i) % W
  {
    var s := WrappingShr(w, 64 * i);
    WordWeight(i);
    t := s.lo % W;
    WordOfLow(s);
  }

  lemma WordOfLow(s: U256)
    ensures s.lo % W == Val(s) % W
  {
    assert s.hi * B == (s.hi * W) * W;
    ModAddMultiple(s.lo, s.hi * W, W);
  }

  /** One turn of the loop of `overflowing_mul`. */
  method AddPartial(u: U256, w: U256, i: nat, acc: U256) returns (ret: U256)
    requires i < 3 && Val(acc) == Val(u) * (Val(w) % Pow(W, i)) % MODULUS
    ensures Val(ret) == Val(u) * (Val(w) % Pow(W, i + 1)) % MODULUS
  {
    ghost var x, y, p := Val(u), Val(w), Pow(W, i);
    var toMul := WordAt(w, i);
    var mulRes, _ := MulU64(u, toMul);
    WordWeight(i);
    var shifted := WrappingShl(mulRes, 64 * i);
    var sum, _ := OverflowingAdd(acc, shifted);
    ret := sum;
    PartialSum(x, y, p, Val(acc), toMul, Val(mulRes), Val(shifted), MODULUS);
    assert p * W == Pow(W, i + 1);
  }

  /** What `overflowing_mul` returns: the top word's product is added unshifted. */
  function Computed(x: nat, y: nat): nat {
    (x * (y % T192) + x * (y / T192)) % MODULUS
  }

  /** Its overflow flag only looks at the top word and the last addition. */
  ghost predicate Flagged(x: nat, y: nat) {
    || x * (y / T192) >= MODULUS
    || x * (y % T192) % MODULUS + x * (y / T192) % MODULUS >= MODULUS
  }

  lemma ThreeWords()
    ensures Pow(W, 3) == T192
  {
    assert Pow(W, 1) == W;
    assert Pow(W, 2) == B;
  }

  /** `overflowing_mul`. */
  method OverflowingMul(u: U256, w: U256) returns (ret: U256, overflow: bool)
    ensures Val(ret) == Computed(Val(u), Val(w))
    ensures overflow <==> Flagged(Val(u), Val(w))
  {
    ret, overflow := ZERO, false;
    for i := 0 to 3
      invariant Val(ret) == Val(u) * (Val(w) % Pow(W, i)) % MODULUS
    {
      ret := AddPartial(u, w, i, ret);
    }
    ThreeWords();
    ghost var x, y := Val(u), Val(w);
    var toMul := WordAt(w, 3);
    assert toMul == y / T192 by {
      DivLess(y, T192, W);
      DivNonNeg(y, T192);
      SmallMod(y / T192, W);
    }
    var mulRes, o1 := MulU64(u, toMul);
    overflow := overflow || o1;
    AddModBoth(x * (y % T192), x * toMul, MODULUS);
    var sum, o2 := OverflowingAdd(ret, mulRes);
    ret := sum;
    overflow := overflow || o2;
  }

  /** z and z * 2^192 agree modulo 2^256 only if both vanish. */
  lemma ShiftFixpoint(z: nat)
    ensures z * T192 % MODULUS == z % MODULUS <==> z % MODULUS == 0
  {
    MulModLeft(z, T192, MODULUS);
    MulModLeft(z * T192, T192, MODULUS);
    assert T192 * T192 == B * MODULUS;
    MulAssoc(z, T192, T192);
    MulAssoc(z, B, MODULUS);
    ModAddMultiple(0, z * B, MODULUS);
  }

  lemma AddCongruent(a: int, b: int, c: int, m: nat)
    requires m > 0 && b % m == c % m
    ensures (a + b) % m == (a + c) % m
  {
    DivModOf(b, m);
    DivModOf(c, m);
    var k := b / m - c / m;
    assert a + b == (a + c) + k * m;
    ModAddMultiple(a + c, k, m);
  }

  lemma CongruentSums(a: int, b: int, c: int, m: nat)
    requires m > 0
    ensures (a + b) % m == (a + c) % m <==> b % m == c % m
  {
    if b % m == c % m {
      AddCongruent(a, b, c, m);
    } else if (a + b) % m == (a + c) % m {
      AddCongruent(-a, a + b, a + c, m);
    }
  }

  /** The wrapped product is right exactly when the top word's product vanishes modulo 2^256. */
  lemma ProductRightIff(x: nat, y: nat)
    ensures Computed(x, y) == x * y % MODULUS <==> x * (y / T192) % MODULUS == 0
  {
    var low, top := y % T192, y / T192;
    DivModOf(y, T192);
    var z := x * top;
    MulAssoc(x, top, T192);
    assert x * y == x * low + z * T192;
    CongruentSums(x * low, z, z * T192, MODULUS);
    ShiftFixpoint(z);
  }

  /** In particular for every right operand below 2^192; but the flag is then never raised. */
  lemma SmallRightOperand(x: nat, y: nat)
    requires y < T192
    ensures Computed(x, y) == x * y % MODULUS
    ensures !Flagged(x, y)
  {
    SmallMod(y, T192);
    SmallMod(0, MODULUS);
    ProductRightIff(x, y);
  }

  /** A raised flag is never a false alarm. */
  lemma FlagIsSound(x: nat, y: nat)
    requires Flagged(x, y)
    ensures x * y >= MODULUS
  {
    var low, top := y % T192, y / T192;
    DivModOf(y, T192);
    DivNonNeg(y, T192);
    MulMono(1, T192, top);
    PartsBelowProduct(x, low, top, y, MODULUS);
  }

  lemma PartsBelowProduct(x: nat, low: nat, top: nat, y: nat, m: nat)
    requires m > 0 && low + top <= y && (x * top >= m || x * low % m + x * top % m >= m)
    ensures x * y >= m
  {
    MulMono(top, y, x);
    MulMono(low, y, x);
    MulMono(low + top, y, x);
    if x * top < m && x * low < m {
      SmallMod(x * top, m);
      SmallMod(x * low, m);
    }
  }

  /** A one-word left operand wraps in neither partial product. */
  lemma OneWordOperand(x: nat, low: nat, top: nat)
    requires x < W && low < T192 && top < W
    ensures x * top < MODULUS && x * low < MODULUS
    ensures x * low % MODULUS + x * top % MODULUS == x * (low + top)
  {
    MulMono(x, W, low);
    MulMono(x, W, top);
    SmallMod(x * top, MODULUS);
    SmallMod(x * low, MODULUS);
  }

  /** Two operands beyond one word and three words always overflow. */
  lemma LargeOperands(x: nat, y: nat)
    requires x >= W && y >= T192
    ensures x * y >= MODULUS
  {
    MulMono(W, x, T192);
    MulMono(T192, y, x);
  }

  lemma LastAddition(low: nat, top: nat)
    ensures top >= MODULUS || low % MODULUS + top % MODULUS >= MODULUS <==>
              top >= MODULUS || low % MODULUS >= MODULUS - top
  {
    if top < MODULUS {
      SmallMod(top, MODULUS);
    }
  }

  lemma TopWord(w: U256)
    ensures 0 <= Val(w) / T192 < W && 0 <= Val(w) % T192 < T192
  {
    DivModOf(Val(w), T192);
    DivNonNeg(Val(w), T192);
    DivLess(Val(w), T192, W);
  }

  /** The condition on the operands under which the flag is right. */
  ghost predicate FlagReliable(x: nat, y: nat) {
    var low, top := y % T192, y / T192;
    if y < T192 then x * y < MODULUS
    else if x < W then x * y < MODULUS || x * (low + top) >= MODULUS
    else x * top >= MODULUS || x * low % MODULUS >= MODULUS - x * top
  }

  lemma OneWordFlag(x: nat, y: nat)
    requires x < W && 0 <= y / T192 < W
    ensures Flagged(x, y) <==> x * (y % T192 + y / T192) >= MODULUS
  {
    DivModOf(y, T192);
    OneWordOperand(x, y % T192, y / T192);
  }

  lemma LargeFlag(x: nat, y: nat)
    requires y / T192 >= 0
    ensures Flagged(x, y) <==>
              x * (y / T192) >= MODULUS || x * (y % T192) % MODULUS >= MODULUS - x * (y / T192)
  {
    DivModOf(y, T192);
    LastAddition(x * (y % T192), x * (y / T192));
  }

  /**
   The flag is right exactly when: below 2^192 nothing overflows; for a one-word left operand
   nothing overflows or the two parts of the right one overflow even unshifted; for larger
   operands, which always overflow, the top product or the last addition does.
   */
  lemma FlagRightIff(u: U256, w: U256)
    ensures (Flagged(Val(u), Val(w)) <==> Val(u) * Val(w) >= MODULUS) <==> FlagReliable(Val(u), Val(w))
  {
    hide Val, Flagged;
    var x, y := Val(u), Val(w);
    TopWord(w);
    if Flagged(x, y) {
      FlagIsSound(x, y);
    }
    if y < T192 {
      SmallRightOperand(x, y);
    } else if x < W {
      OneWordFlag(x, y);
    } else {
      LargeOperands(x, y);
      LargeFlag(x, y);
    }
  }

  /** 1 * 2^192 comes out as 1, and 2^128 * 2^128 overflows without a flag. */
  lemma ProductGoesWrong()
    ensures Computed(1, T192) == 1 && 1 * T192 % MODULUS == T192
    ensures !Flagged(B, B) && B * B >= MODULUS
  {
    DivModUnique(T192, T192, 1, 0);
    SmallMod(1, MODULUS);
    SmallMod(T192, MODULUS);
    SmallRightOperand(B, B);
  }
}
