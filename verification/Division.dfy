/** Bitwise long division of 256-bit integers and what is computed with it. */
module Division {
  import opened Arith
  import opened Bitwise
  import opened Words
  import opened Uint256

  lemma NonZero(u: U256)
    ensures u != ZERO <==> Val(u) > 0
  {
    if Val(u) == 0 {
      ValInjective(u, ZERO);
    }
  }

  function Quot(u: U256, w: U256): (r: U256)
    requires w != ZERO
    ensures Val(w) > 0 && Val(r) == Val(u) / Val(w)
  {
    NonZero(w);
    DivNonNeg(Val(u), Val(w));
    OfNat(Val(u) / Val(w))
  }

  function Rem(u: U256, w: U256): (r: U256)
    requires w != ZERO
    ensures Val(w) > 0 && Val(r) == Val(u) % Val(w)
  {
    NonZero(w);
    OfNat(Val(u) % Val(w))
  }

  /**
   Long division of x by y with n quotient bits still to come: the quotient so far, a multiple
   of 2^n, and the rest, which is below y * 2^n, together make up x.
   */
  ghost predicate Dividing(x: nat, y: nat, ret: nat, sub: nat, n: nat) {
    && x == ret * y + sub
    && ret % Pow2(n) == 0
    && sub < y * Pow2(n)
  }

  /** The divisor aligned with the dividend loses no bits and is large enough to start from. */
  lemma DividingStart(x: nat, y: nat, m: nat, n: nat)
    requires 0 < n <= m && Pow2(n - 1) <= y < Pow2(n) && x < Pow2(m)
    ensures y * Pow2(m - n) < Pow2(m)
    ensures Dividing(x, y, 0, x, m - n + 1)
  {
    var s := m - n;
    assert y * Pow2(s) < Pow2(m) by {
      MulStrict(y, Pow2(n), Pow2(s));
      Pow2Add(n, s);
    }
    assert Pow2(m) <= y * Pow2(s + 1) by {
      MulMono(Pow2(n - 1), y, Pow2(s + 1));
      Pow2Add(n - 1, s + 1);
    }
    SmallMod(0, Pow2(s + 1));
  }

  lemma DividingStep(x: nat, y: nat, ret: nat, sub: nat, s: nat)
    requires Dividing(x, y, ret, sub, s + 1)
    ensures sub < y * Pow2(s) ==> Dividing(x, y, ret, sub, s)
    ensures sub >= y * Pow2(s) ==> Dividing(x, y, ret + Pow2(s), sub - y * Pow2(s), s)
  {
    var p := Pow2(s);
    assert Pow2(s + 1) == 2 * p;
    DivModOf(ret, 2 * p);
    var k := ret / (2 * p);
    assert ret == (2 * k) * p;
    ModAddMultiple(0, 2 * k, p);
    ModAddMultiple(0, 2 * k + 1, p);
    assert ret + p == (2 * k + 1) * p;
    assert y * (2 * p) == y * p + y * p;
    assert (ret + p) * y == ret * y + y * p;
  }

  lemma DividingDone(x: nat, y: nat, ret: nat, sub: nat)
    requires Dividing(x, y, ret, sub, 0)
    ensures y > 0 && x / y == ret && x % y == sub
  {
    assert Pow2(0) == 1;
    DivModUnique(x, y, ret, sub);
  }

  lemma AlignmentFits(u: U256, rhs: U256)
    requires rhs != ZERO && BitLen(Val(rhs)) <= BitLen(Val(u))
    ensures var s := BitLen(Val(u)) - BitLen(Val(rhs));
            s < 256 && Val(rhs) * Pow2(s) < MODULUS && Dividing(Val(u), Val(rhs), 0, Val(u), s + 1)
  {
    var m, n := Bits(u), Bits(rhs);
    DividingStart(Val(u), Val(rhs), m, n);
    Pow2Mono(m, 256);
    ModulusIsPow2();
  }

  function RetVal(ret: seq<u128>): nat
    requires |ret| == 2
  {
    ret[0] * B + ret[1]
  }

  /** A multiple of p below c * p leaves room for another p. */
  lemma RoomAbove(w: nat, p: nat, c: nat)
    requires 0 < p && w % p == 0 && w < c * p
    ensures w + p <= c * p && w == (w / p) * p
  {
    DivLess(w, p, c);
    DivModOf(w, p);
    MulMono(w / p + 1, c, p);
  }

  /** A zero bit of one word, below it only zeros: "or" sets it. */
  lemma SetBitInWord(w: u128, k: nat)
    requires k < 128 && w % Pow2(k + 1) == 0
    ensures Shl128(1, k) == Pow2(k)
    ensures Or(w, Pow2(k)) == w + Pow2(k) < B
  {
    ModulusIsPow2();
    var p, b := Pow2(k + 1), Pow2(k);
    assert p == 2 * b;
    Pow2Split(k + 1, 128);
    var c := Pow2(127 - k);
    assert B == c * p;
    MulMono(1, c, p);
    SmallMod(b, B);
    RoomAbove(w, p, c);
    OrDisjoint(w / p, k + 1, b);
  }

  lemma SumOfPartsIsZero(a: nat, lo: nat)
    requires a * B + lo == 0
    ensures a == 0
  {
  }

  /** Which word holds bit s, and that it is clear there together with all lower bits. */
  lemma BitPlace(hi: u128, lo: u128, s: nat)
    requires s < 256 && (hi * B + lo) % Pow2(s + 1) == 0
    ensures s >= 128 ==> hi % Pow2(s - 127) == 0 && Pow2(s) == Pow2(s - 128) * B
    ensures s < 128 ==> lo % Pow2(s + 1) == 0
  {
    ModulusIsPow2();
    var x := hi * B + lo;
    if s >= 128 {
      var c := Pow2(s - 127);
      Pow2Split(128, s + 1);
      Pow2Split(128, s);
      DivDiv(x, B, c);
      DivModUnique(x, B, hi, lo);
      SumOfPartsIsZero(hi % c, lo);
    } else {
      var p, c := Pow2(s + 1), Pow2(127 - s);
      Pow2Split(s + 1, 128);
      MulAssoc(hi, c, p);
      assert hi * B == (hi * c) * p;
      ModAddMultiple(lo, hi * c, p);
    }
  }

  /** The quotient update of one division step. */
  method SetBit(ret: array<u128>, shift: nat)
    requires ret.Length == 2 && shift < 256
    requires RetVal(ret[..]) % Pow2(shift + 1) == 0
    modifies ret
    ensures RetVal(ret[..]) == RetVal(old(ret[..])) + Pow2(shift)
  {
    BitPlace(ret[0], ret[1], shift);
    var i, k := 1 - shift / 128, shift % 128;
    assert ret[i] % Pow2(k + 1) == 0;
    SetBitInWord(ret[i], k);
    ret[i] := Or(ret[i], Shl128(1, k));
  }

  /** The state of the division loop before the step for quotient bit `shift`. */
  ghost predicate State(x: nat, y: nat, ret: seq<u128>, sub: U256, sh: U256, shift: nat) {
    && |ret| == 2 && shift < 256
    && Val(sh) == y * Pow2(shift)
    && Dividing(x, y, RetVal(ret), Val(sub), shift + 1)
  }

  lemma HalveShifted(y: nat, s: nat)
    requires s > 0
    ensures y * Pow2(s) / Pow2(1) == y * Pow2(s - 1)
  {
    assert Pow2(1) == 2;
    assert y * Pow2(s) == 2 * (y * Pow2(s - 1));
  }

  /** One turn of the division loop. */
  method DivStep(ret: array<u128>, sub: U256, sh: U256, shift: nat, ghost x: nat, ghost y: nat)
    returns (sub': U256, sh': U256)
    requires State(x, y, ret[..], sub, sh, shift)
    modifies ret
    ensures ret.Length == 2
    ensures Dividing(x, y, RetVal(ret[..]), Val(sub'), shift)
    ensures shift > 0 ==> Val(sh') == y * Pow2(shift - 1)
  {
    DividingStep(x, y, RetVal(ret[..]), Val(sub), shift);
    LessIsValLess(sub, sh);
    sub' := sub;
    if !Less(sub, sh) {
      SetBit(ret, shift);
      SmallMod(Val(sub) - Val(sh), MODULUS);
      sub' := WrappingSub(sub, sh);
    }
    if shift > 0 {
      HalveShifted(y, shift);
    }
    sh' := WrappingShr(sh, 1);
  }

  /** `div_rem`: quotient and remainder of any dividend by any non-zero divisor. */
  method DivRem(u: U256, rhs: U256) returns (quotient: U256, remainder: U256)
    requires rhs != ZERO
    ensures quotient == Quot(u, rhs)
    ensures remainder == Rem(u, rhs)
  {
    ghost var x, y := Val(u), Val(rhs);
    var sub, sh := u, rhs;
    var ret := new u128[2] [0, 0];
    var myBits, yourBits := Bits(u), Bits(rhs);
    if myBits < yourBits {
      FewerBits(x, y);
      SmallMod(x, y);
      ValInjective(ZERO, Quot(u, rhs));
      ValInjective(sub, Rem(u, rhs));
      return ZERO, sub;
    }
    var shift := myBits - yourBits;
    AlignmentFits(u, rhs);
    sh := ShiftExact(sh, shift);
    StartState(x, y, u, sh, shift);
    while true
      invariant ret.Length == 2
      invariant State(x, y, ret[..], sub, sh, shift)
      decreases shift
    {
      sub, sh := DivStep(ret, sub, sh, shift, x, y);
      if shift == 0 {
        break;
      }
      shift := shift - 1;
    }
    DividingDone(x, y, RetVal(ret[..]), Val(sub));
    quotient, remainder := U256(ret[0], ret[1]), sub;
    ValInjective(quotient, Quot(u, rhs));
    ValInjective(remainder, Rem(u, rhs));
  }

  lemma StartState(x: nat, y: nat, u: U256, sh: U256, s: nat)
    requires s < 256 && x == Val(u) && Val(sh) == y * Pow2(s) && Dividing(x, y, 0, x, s + 1)
    ensures State(x, y, [0, 0], u, sh, s)
  {
  }

  /** A left shift that loses no bits. */
  method ShiftExact(u: U256, shift: nat) returns (sh: U256)
    requires shift < 256 && Val(u) * Pow2(shift) < MODULUS
    ensures Val(sh) == Val(u) * Pow2(shift)
  {
    ShlExact(u, shift);
    sh := WrappingShl(u, shift);
  }

  /** Multiplying by a word without overflow and dividing by it again gives back the number. */
  method MulThenDiv(u: U256, y: u64) returns (overflow: bool, quotient: U256, remainder: U256)
    requires y > 0
    ensures overflow <==> Val(u) * y >= MODULUS
    ensures !overflow ==> quotient == u && remainder == ZERO
  {
    var product: U256;
    product, overflow := MulU64(u, y);
    quotient, remainder := DivRem(product, U256(0, y));
    if !overflow {
      SmallMod(Val(u) * y, MODULUS);
      DivModUnique(Val(u) * y, y, Val(u), 0);
      ValInjective(quotient, u);
      ValInjective(remainder, ZERO);
    }
  }

  // ----- the inverse that turns targets into work and back -----

  /** `inverse`, the body of both `Target::to_work` and `Work::to_target`. */
  function Inverse(u: U256): (r: U256)
    ensures Val(u) >= 2 ==> Val(r) == MODULUS / (Val(u) + 1)
    ensures Val(u) < 2 ==> r == MAX
  {
    if u == ZERO || u == ONE then MAX
    else if u == MAX then
      DivModUnique(MODULUS, Val(u) + 1, 1, 0);
      ONE
    else
      InverseEquation(u);
      Sum(Quot(Not(u), Sum(u, ONE)), ONE)
  }

  lemma Above1(u: U256)
    requires u != ZERO && u != ONE && u != MAX
    ensures 2 <= Val(u) < MODULUS - 1
  {
    var x := Val(u);
    if x == 0 {
      ValInjective(u, ZERO);
    } else if x == 1 {
      ValInjective(u, ONE);
    } else if x == MODULUS - 1 {
      ValInjective(u, MAX);
    }
  }

  lemma SumExact(u: U256, w: U256)
    requires Val(u) + Val(w) < MODULUS
    ensures Val(Sum(u, w)) == Val(u) + Val(w)
  {
    SmallMod(Val(u) + Val(w), MODULUS);
  }

  /** ~x / (x + 1) + 1 == 2^256 / (x + 1), without wrapping. */
  lemma InverseEquation(u: U256)
    requires u != ZERO && u != ONE && u != MAX
    ensures Val(u) >= 2 && Sum(u, ONE) != ZERO
    ensures Val(Sum(Quot(Not(u), Sum(u, ONE)), ONE)) == MODULUS / (Val(u) + 1)
  {
    Above1(u);
    var next := Sum(u, ONE);
    SumExact(u, ONE);
    NonZero(next);
    ComplementQuotient(MODULUS, Val(next));
    SumExact(Quot(Not(u), next), ONE);
  }

  lemma ComplementQuotient(n: nat, d: nat)
    requires 2 <= d <= n
    ensures (n - d) / d + 1 == n / d
    ensures 0 < n / d < n
  {
    ModAddMultiple(n - d, 1, d);
    DivNonNeg(n - d, d);
    DivLess(n, d, n);
    MulMono(2, d, n);
  }

  /** A lower target never means less work. */
  lemma InverseAntitone(u: U256, w: U256)
    requires Val(u) <= Val(w)
    ensures Val(Inverse(w)) <= Val(Inverse(u))
  {
    var x, y := Val(u), Val(w);
    if x >= 2 {
      QuotientAntitone(MODULUS, x + 1, y + 1);
    }
  }

  lemma QuotientAntitone(n: nat, a: nat, b: nat)
    requires 0 < a <= b
    ensures n / b <= n / a
  {
    var q := n / b;
    DivModOf(n, b);
    DivNonNeg(n, b);
    MulMono(a, b, q);
    DivLess(n, a, q);
  }

  /** When converting target -> work -> target gives back the target. */
  predicate SurvivesRoundTrip(x: nat) {
    || x == 1
    || x == MODULUS - 1
    || (2 <= x < MODULUS / 2 && x <= MODULUS / (x + 1) + MODULUS % (x + 1))
  }

  lemma TwiceOnNumbers(x: nat, w: nat, back: nat)
    requires x < MODULUS && w == (if x >= 2 then MODULUS / (x + 1) else MODULUS - 1)
    requires back == if w >= 2 then MODULUS / (w + 1) else MODULUS - 1
    ensures back == x <==> SurvivesRoundTrip(x)
  {
    if x < 2 {
      DivModUnique(MODULUS, MODULUS, 1, 0);
    } else {
      DivLess(MODULUS, x + 1, 1);
      DivLess(MODULUS, x + 1, 2);
      DoubleInverse(MODULUS, x, w);
    }
  }

  lemma InverseTwice(t: U256)
    ensures Inverse(Inverse(t)) == t <==> SurvivesRoundTrip(Val(t))
  {
    hide Inverse, SurvivesRoundTrip;
    var w, back := Inverse(t), Inverse(Inverse(t));
    assert Val(MAX) == MODULUS - 1;
    hide Val;
    TwiceOnNumbers(Val(t), Val(w), Val(back));
    if Val(back) == Val(t) {
      ValInjective(back, t);
    }
  }

  /** Every target from 1 up to 2^128 - 1 survives. */
  lemma InverseInvolutive(t: U256)
    requires 1 <= Val(t) < B
    ensures Inverse(Inverse(t)) == t
  {
    var x := Val(t);
    if x > 1 {
      SmallSquare(x, B);
      assert MODULUS == B * B;
      DivModOf(MODULUS, x + 1);
      DivLess(MODULUS, x + 1, x);
    }
    InverseTwice(t);
  }

  lemma SmallSquare(x: nat, b: nat)
    requires x < b
    ensures x * (x + 1) <= b * b
  {
    MulMono(x, b, x + 1);
    MulMono(x + 1, b, b);
  }

  /** With w = n / (x + 1): n / (w + 1) is x exactly when x fits into w plus the remainder. */
  lemma DoubleInverse(n: nat, x: nat, w: nat)
    requires w == n / (x + 1)
    ensures n / (w + 1) == x <==> x <= w + n % (x + 1)
  {
    DivModOf(n, x + 1);
    var r := n % (x + 1);
    assert n == w * (x + 1) + r == w * x + w + r;
    assert (w + 1) * (x + 1) == w * x + w + x + 1;
    DivLess(n, w + 1, x + 1);
    assert n < (x + 1) * (w + 1);
    assert x * (w + 1) == w * x + x;
    DivLess(n, w + 1, x);
  }
}
