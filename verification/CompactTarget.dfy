/** The 32-bit floating "compact" encoding of proof-of-work targets. */
module CompactTarget {
  import opened Arith
  import opened Bitwise
  import opened Words
  import opened Uint256

  /** 256^k, the weight of byte k. */
  function Bytes(k: nat): (r: nat)
    ensures r > 0
  {
    Pow2(8 * k)
  }

  lemma BytesSplit(j: nat, k: nat)
    requires j <= k
    ensures Bytes(k) == Bytes(j) * Bytes(k - j)
  {
    Pow2Add(8 * j, 8 * (k - j));
  }

  lemma Literals()
    ensures Pow2(24) == 0x100_0000 && Pow2(23) == 0x80_0000 && Bytes(3) == 0x100_0000 && Bytes(0) == 1
    ensures Bytes(1) == 0x100 && Bytes(2) == 0x1_0000 && Pow2(15) == 0x8000
  {
    assert Pow2(8) == 0x100;
    assert Pow2(15) == 0x8000;
    Pow2Add(8, 15);
    Pow2Add(8, 8);
    Pow2Add(8, 16);
  }

  /** `from_compact`. */
  function FromCompact(bits: u32): U256 {
    var exponent := bits / 0x100_0000;
    var mantissa := Mantissa(bits);
    if exponent <= 3 then
      DivNonNeg(mantissa, Bytes(3 - exponent));
      Scaled(mantissa / Bytes(3 - exponent), 0)
    else
      Scaled(mantissa, 8 * (exponent - 3))
  }

  /** The masked low 24 bits. */
  function Mantissa(bits: u32): (m: nat)
    ensures m == bits % 0x100_0000
  {
    Literals();
    AndMask(bits, 24);
    And(bits, 0xFF_FFFF)
  }

  /** A mantissa whose sign bit is set counts as negative and gives zero. */
  function Scaled(mant: nat, expt: nat): U256
    requires mant < 0x100_0000
  {
    if mant > 0x7F_FFFF then ZERO else Shl(U256(0, mant), expt % 256)
  }

  /** The number of bytes of v with room for a sign bit. */
  function SignedSize(v: nat): nat {
    if v == 0 then 0 else BitLen(v) / 8 + 1
  }

  /** The three leading bytes of v, left aligned. */
  function LeadingBytes(v: nat, size: nat): nat {
    if size <= 3 then v * Bytes(3 - size) else v / Bytes(size - 3)
  }

  /** The encoding by its meaning: size and leading bytes. */
  function CompactOf(v: nat): nat {
    SignedSize(v) * 0x100_0000 + LeadingBytes(v, SignedSize(v))
  }

  /** v with everything below its leading bytes cleared. */
  function Rounded(v: nat): nat {
    var s := SignedSize(v);
    if s <= 3 then v
    else
      DivNonNeg(v, Bytes(s - 3));
      MulMono(0, v / Bytes(s - 3), Bytes(s - 3));
      v / Bytes(s - 3) * Bytes(s - 3)
  }

  lemma SignedSizeBounds(v: nat)
    ensures var s := SignedSize(v);
            v > 0 ==> s >= 1 && v < Pow2(8 * s - 1) && (s > 1 ==> Pow2(8 * s - 9) <= v)
  {
    hide Pow2, BitLen;
    if v > 0 {
      var n, s := BitLen(v), SignedSize(v);
      PowZero();
      assert 8 * s - 8 <= n <= 8 * s - 1;
      Pow2Mono(n, 8 * s - 1);
      if s > 1 {
        Pow2Mono(8 * s - 9, n - 1);
      }
    }
  }

  lemma SizeAtMost33(v: nat)
    requires v < MODULUS
    ensures SignedSize(v) <= 33
  {
    ModulusIsPow2();
    BitLenBound(v, 256);
  }

  lemma SmallLeadingBytes(v: nat, s: nat)
    requires 0 < s <= 3 && v < Pow2(8 * s - 1)
    ensures 0 <= v * Bytes(3 - s) < 0x80_0000
  {
    Literals();
    Pow2Add(8 * s - 1, 8 * (3 - s));
    assert 8 * s - 1 + 8 * (3 - s) == 23;
    MulStrict(v, Pow2(8 * s - 1), Bytes(3 - s));
    MulMono(0, v, Bytes(3 - s));
  }

  lemma LargeLeadingBytes(v: nat, s: nat)
    requires 3 < s && v < Pow2(8 * s - 1)
    ensures 0 <= v / Bytes(s - 3) < 0x80_0000
  {
    Literals();
    Pow2Add(23, 8 * (s - 3));
    assert 23 + 8 * (s - 3) == 8 * s - 1;
    DivLess(v, Bytes(s - 3), 0x80_0000);
    DivNonNeg(v, Bytes(s - 3));
  }

  /** The leading bytes leave the sign bit clear. */
  lemma LeadingBytesBound(v: nat)
    ensures 0 <= LeadingBytes(v, SignedSize(v)) < 0x80_0000
  {
    if v > 0 {
      SignedSizeBounds(v);
      if SignedSize(v) <= 3 {
        SmallLeadingBytes(v, SignedSize(v));
      } else {
        LargeLeadingBytes(v, SignedSize(v));
      }
    }
  }

  lemma CompactFits(v: nat)
    requires v < MODULUS
    ensures 0 <= CompactOf(v) < 0x1_0000_0000
  {
    SizeAtMost33(v);
    LeadingBytesBound(v);
  }

  /** Decoding by size and mantissa. */
  lemma DecodeParts(c: u32, s: nat, m: nat)
    requires c == s * 0x100_0000 + m && m < 0x100_0000
    ensures s <= 3 ==> 0 <= m / Bytes(3 - s) <= m && FromCompact(c) == Scaled(m / Bytes(3 - s), 0)
    ensures s > 3 ==> FromCompact(c) == Scaled(m, 8 * (s - 3))
  {
    DivModUnique(c, 0x100_0000, s, m);
    if s <= 3 {
      DivNonNeg(m, Bytes(3 - s));
    }
  }

  lemma SmallDecoded(v: nat, s: nat, m: nat)
    requires s <= 3 && m == v * Bytes(3 - s) < 0x80_0000
    ensures m / Bytes(3 - s) == v && Val(Scaled(v, 0)) == v
  {
    DivModUnique(m, Bytes(3 - s), v, 0);
    MulMono(1, Bytes(3 - s), v);
    assert Pow2(0) == 1;
    ScaledValue(v, 0);
  }

  lemma LargeDecoded(v: nat, s: nat, m: nat)
    requires v < MODULUS && 3 < s <= 33 && m == v / Bytes(s - 3) < 0x80_0000
    ensures Val(Scaled(m, 8 * (s - 3))) == m * Bytes(s - 3)
  {
    DivModOf(v, Bytes(s - 3));
    ScaledValue(m, 8 * (s - 3));
  }

  /** Decoding an encoded target gives it back rounded down. */
  lemma DecodeEncoded(v: nat)
    requires v < MODULUS
    ensures 0 <= CompactOf(v) < 0x1_0000_0000
    ensures Val(FromCompact(CompactOf(v))) == Rounded(v)
  {
    CompactFits(v);
    SizeAtMost33(v);
    LeadingBytesBound(v);
    var s, m := SignedSize(v), LeadingBytes(v, SignedSize(v));
    DecodeParts(CompactOf(v), s, m);
    if s <= 3 {
      SmallDecoded(v, s, m);
    } else {
      LargeDecoded(v, s, m);
    }
  }

  lemma ScaledValue(mant: nat, e: nat)
    requires mant < 0x80_0000 && e < 256 && mant * Pow2(e) < MODULUS
    ensures Val(Scaled(mant, e)) == mant * Pow2(e)
  {
    ShlExact(U256(0, mant), e);
  }

  ghost predicate HasForm(x: nat, m: nat, k: nat) {
    m < 0x80_0000 && x == m * Bytes(k)
  }

  /** m * 256^k with 23 mantissa bits. */
  ghost predicate Representable(x: nat) {
    exists m: nat, k: nat :: HasForm(x, m, k)
  }

  /** Whatever 32 bits are decoded, the target has 23 significant bits above a whole byte. */
  lemma DecodedIsRepresentable(c: u32)
    ensures Representable(Val(FromCompact(c)))
  {
    var e, m := c / 0x100_0000, c % 0x100_0000;
    if e <= 3 {
      DivNonNeg(m, Bytes(3 - e));
      ScaledIsRepresentable(m / Bytes(3 - e), 0);
    } else {
      ScaledIsRepresentable(m, e - 3);
    }
  }

  lemma ScaledIsRepresentable(mant: nat, j: nat)
    requires mant < 0x100_0000
    ensures Representable(Val(Scaled(mant, 8 * j)))
  {
    if mant > 0x7F_FFFF {
      assert HasForm(Val(Scaled(mant, 8 * j)), 0, 0);
    } else {
      var k := MaskedBytes(j);
      TruncatedShift(mant, k);
      ModAtMost(mant, Pow2(256 - 8 * k));
      assert HasForm(Val(Scaled(mant, 8 * j)), mant % Pow2(256 - 8 * k), k);
    }
  }

  function MaskedBytes(j: nat): (k: nat)
    ensures k < 32 && 8 * j % 256 == 8 * k
  {
    j % 32
  }

  /** Bits shifted out of the word only shorten the mantissa. */
  lemma TruncatedShift(mant: nat, k: nat)
    requires mant < 0x100_0000 && k < 32
    ensures Val(Shl(U256(0, mant), 8 * k)) == (mant % Pow2(256 - 8 * k)) * Bytes(k)
  {
    ModulusIsPow2();
    Pow2Split(8 * k, 256);
    ScaleMod(mant, Bytes(k), Pow2(256 - 8 * k));
  }

  lemma ModAtMost(x: nat, d: nat)
    requires d > 0
    ensures 0 <= x % d <= x
  {
    DivModOf(x, d);
    DivNonNeg(x, d);
    MulMono(0, x / d, d);
  }

  lemma RoundedAtMost(v: nat)
    ensures Rounded(v) <= v
  {
    var s := SignedSize(v);
    if s > 3 {
      DivModOf(v, Bytes(s - 3));
    }
  }

  /** No representable number lies strictly between a number and its rounding. */
  lemma RoundedIsBest(v: nat, m: nat, k: nat)
    requires m < 0x80_0000 && m * Bytes(k) <= v
    ensures m * Bytes(k) <= Rounded(v)
  {
    var s := SignedSize(v);
    if s > 3 {
      if k >= s - 3 {
        BytesSplit(s - 3, k);
        MultipleBelow(v, m, Bytes(s - 3), Bytes(k - (s - 3)));
      } else {
        LeadingFloor(v);
        ShortNumber(m, k, s);
      }
    }
  }

  /** A multiple of q that is at most v is at most v rounded down to a multiple of q. */
  lemma MultipleBelow(v: nat, m: nat, q: nat, c: nat)
    requires q > 0 && m * (q * c) <= v
    ensures m * (q * c) <= v / q * q
  {
    var f := m * c;
    assert m * (q * c) == f * q;
    DivLess(v, q, f);
    MulMono(f, v / q, q);
  }

  lemma ShortNumber(m: nat, k: nat, s: nat)
    requires m < 0x80_0000 && k < s - 3
    ensures m * Bytes(k) <= Pow2(8 * s - 9)
  {
    var e := 8 * (s - 4);
    Literals();
    Pow2Mono(8 * k, e);
    MulMono(m, 0x80_0000, Bytes(k));
    Pow2Add(23, e);
    assert 23 + e == 8 * s - 9;
  }

  /** The rounding of a number keeps its leading 15 bits at least. */
  lemma LeadingFloor(v: nat)
    requires SignedSize(v) > 3
    ensures var s := SignedSize(v);
            Pow2(8 * s - 9) == 0x8000 * Bytes(s - 3) && Pow2(8 * s - 9) <= Rounded(v)
  {
    var s := SignedSize(v);
    var q := Bytes(s - 3);
    Literals();
    SignedSizeBounds(v);
    Pow2Add(15, 8 * (s - 3));
    assert 15 + 8 * (s - 3) == 8 * s - 9;
    DivLess(v, q, 0x8000);
    MulMono(0x8000, v / q, q);
  }

  // ----- the promises -----

  /**
   The encoding is the best one from below: it decodes to at most t, and no 32-bit encoding
   decodes to anything closer.
   */
  lemma EncodingIsBest(t: U256, c: u32)
    ensures 0 <= CompactOf(Val(t)) < 0x1_0000_0000
    ensures Val(FromCompact(CompactOf(Val(t)))) <= Val(t)
    ensures Val(FromCompact(c)) <= Val(t) ==> Val(FromCompact(c)) <= Val(FromCompact(CompactOf(Val(t))))
  {
    DecodeEncoded(Val(t));
    RoundedAtMost(Val(t));
    DecodedIsRepresentable(c);
    var x := Val(FromCompact(c));
    var m: nat, k: nat :| HasForm(x, m, k);
    if x <= Val(t) {
      RoundedIsBest(Val(t), m, k);
    }
  }

  /** Encoding a decoded target loses nothing. */
  lemma ExactOnDecoded(c: u32)
    ensures 0 <= CompactOf(Val(FromCompact(c))) < 0x1_0000_0000
    ensures FromCompact(CompactOf(Val(FromCompact(c)))) == FromCompact(c)
  {
    EncodingIsBest(FromCompact(c), c);
    ValInjective(FromCompact(CompactOf(Val(FromCompact(c)))), FromCompact(c));
  }

  lemma RoundingIsMonotone(t: U256, w: U256)
    requires Val(t) <= Val(w)
    ensures 0 <= CompactOf(Val(t)) < 0x1_0000_0000 && 0 <= CompactOf(Val(w)) < 0x1_0000_0000
    ensures Val(FromCompact(CompactOf(Val(t)))) <= Val(FromCompact(CompactOf(Val(w))))
  {
    CompactFits(Val(t));
    EncodingIsBest(t, CompactOf(Val(t)));
    EncodingIsBest(w, CompactOf(Val(t)));
  }

  /** Less than one part in 2^15 is lost. */
  lemma RoundingLoss(t: U256)
    requires t != ZERO
    ensures 0 <= CompactOf(Val(t)) < 0x1_0000_0000
    ensures (Val(t) - Val(FromCompact(CompactOf(Val(t))))) * 0x8000 < Val(t)
  {
    var v := Val(t);
    DecodeEncoded(v);
    if v == 0 {
      ValInjective(t, ZERO);
    }
    var s := SignedSize(v);
    if s > 3 {
      LeadingFloor(v);
      RoundedAtMost(v);
      DivModOf(v, Bytes(s - 3));
    }
  }

  // ----- the encoder -----

  /** The encoder's first size guess, with no room for a sign. */
  function PlainSize(v: nat): nat {
    (BitLen(v) + 7) / 8
  }

  /** The byte-sized window v lies in fixes both sizes. */
  lemma SizesInWindow(v: nat, n: nat)
    requires n > 0 && Pow2(8 * n - 8) <= v < Pow2(8 * n)
    ensures v < Pow2(8 * n - 1) <==> SignedSize(v) == n
    ensures v >= Pow2(8 * n - 1) <==> SignedSize(v) == n + 1
  {
    hide Pow2, BitLen;
    var b := BitLen(v);
    BitLenBound(v, 8 * n);
    Pow2Mono(0, 8 * n - 8);
    PowZero();
    if b < 8 * n - 7 {
      Pow2Mono(b, 8 * n - 8);
    }
    if v < Pow2(8 * n - 1) {
      BitLenBound(v, 8 * n - 1);
    } else if b < 8 * n {
      Pow2Mono(b, 8 * n - 1);
    }
  }

  lemma PowZero()
    ensures Pow2(0) == 1
  {
  }

  lemma PlainWindow(v: nat)
    requires v > 0
    ensures var n := PlainSize(v); n > 0 && Pow2(8 * n - 8) <= v < Pow2(8 * n)
  {
    var n, b := PlainSize(v), BitLen(v);
    assert 8 * n - 7 <= b <= 8 * n;
    Pow2Mono(b, 8 * n);
    Pow2Mono(8 * n - 8, b - 1);
  }

  /** Bit 23 of the first guess is set exactly when the sign needs another byte. */
  ghost predicate SignDecides(v: nat, n: nat, lead: int) {
    && 0 <= lead < 0x100_0000
    && (lead >= 0x80_0000 ==> SignedSize(v) == n + 1 && lead / 0x100 == LeadingBytes(v, n + 1))
    && (lead < 0x80_0000 ==> SignedSize(v) == n)
  }

  lemma SignAdjustment(v: nat)
    ensures SignDecides(v, PlainSize(v), LeadingBytes(v, PlainSize(v)))
  {
    if v > 0 {
      PlainWindow(v);
      SizesInWindow(v, PlainSize(v));
      if PlainSize(v) <= 3 {
        SignBitSmall(v, PlainSize(v));
      } else {
        SignBitLarge(v, PlainSize(v));
      }
    }
  }

  lemma SignBitSmall(v: nat, n: nat)
    requires 0 < n <= 3 && v < Pow2(8 * n)
    ensures 0 <= v * Bytes(3 - n) < 0x100_0000
    ensures v * Bytes(3 - n) >= 0x80_0000 <==> v >= Pow2(8 * n - 1)
    ensures v * Bytes(3 - n) / 0x100 == LeadingBytes(v, n + 1)
  {
    var f := Bytes(3 - n);
    Literals();
    Pow2Add(8 * n, 8 * (3 - n));
    assert 8 * n + 8 * (3 - n) == 24;
    MulStrict(v, Pow2(8 * n), f);
    ScaledCompare(v, Pow2(8 * n - 1), f);
    if n < 3 {
      BytesSplit(1, 3 - n);
      ScaledByte(v, Bytes(2 - n), f);
    }
  }

  lemma ScaledCompare(v: nat, w: nat, f: nat)
    requires f > 0
    ensures v * f >= w * f <==> v >= w
  {
    if v < w {
      MulStrict(v, w, f);
    } else {
      MulMono(w, v, f);
    }
  }

  lemma ScaledByte(v: nat, g: nat, f: nat)
    requires f == 0x100 * g
    ensures v * f / 0x100 == v * g
  {
    assert v * f == (v * g) * 0x100;
  }

  lemma SignBitLarge(v: nat, n: nat)
    requires 3 < n && v < Pow2(8 * n)
    ensures 0 <= v / Bytes(n - 3) < 0x100_0000
    ensures v / Bytes(n - 3) >= 0x80_0000 <==> v >= Pow2(8 * n - 1)
    ensures v / Bytes(n - 3) / 0x100 == LeadingBytes(v, n + 1)
  {
    var q := Bytes(n - 3);
    Literals();
    Pow2Add(23, 8 * (n - 3));
    assert 23 + 8 * (n - 3) == 8 * n - 1;
    DivLess(v, q, 0x80_0000);
    DivLess(v, q, 0x100_0000);
    DivNonNeg(v, q);
    BytesSplit(n - 3, n - 2);
    DivDiv(v, q, 0x100);
  }

  /** The three leading bytes read off the words of the target. */
  method FirstBytes(t: U256, size: nat) returns (compact: u32)
    requires size == PlainSize(Val(t)) <= 32
    ensures compact == LeadingBytes(Val(t), size)
  {
    SignAdjustment(Val(t));
    if size <= 3 {
      SmallTarget(t, size);
      compact := (t.lo % W) * Bytes(3 - size) % W % 0x1_0000_0000;
    } else {
      var bn := WrappingShr(t, 8 * (size - 3));
      ShiftedTarget(t, size, bn);
      compact := bn.lo % 0x1_0000_0000;
    }
  }

  lemma ShiftedTarget(t: U256, size: nat, bn: U256)
    requires 3 < size <= 32 && bn == Shr(t, 8 * (size - 3) % 256)
    requires 0 <= Val(t) / Bytes(size - 3) < 0x100_0000
    ensures bn.lo % 0x1_0000_0000 == Val(t) / Bytes(size - 3)
  {
    assert Val(bn) == Val(t) / Bytes(size - 3);
    LowWord(bn);
  }

  lemma SmallTarget(t: U256, size: nat)
    requires size == PlainSize(Val(t)) <= 3
    requires 0 <= Val(t) * Bytes(3 - size) < 0x100_0000
    ensures (t.lo % W) * Bytes(3 - size) % W % 0x1_0000_0000 == Val(t) * Bytes(3 - size)
  {
    MulMono(1, Bytes(3 - size), Val(t));
    LowWord(t);
    SmallMod(t.lo, W);
    SmallMod(Val(t) * Bytes(3 - size), W);
    SmallMod(Val(t) * Bytes(3 - size), 0x1_0000_0000);
  }

  lemma LowWord(u: U256)
    requires Val(u) < 0x1_0000_0000
    ensures u.lo % 0x1_0000_0000 == u.lo == Val(u)
  {
    SmallMod(u.lo, 0x1_0000_0000);
  }

  /** `to_compact_lossy`. */
  method ToCompactLossy(t: U256) returns (c: u32)
    ensures c == CompactOf(Val(t))
  {
    ghost var v := Val(t);
    var size := (Bits(t) + 7) / 8;
    var compact := FirstBytes(t, size);
    SignAdjustment(v);
    CompactFits(v);
    var sign := SignBit(compact);
    if sign != 0 {
      compact := compact / 0x100;
      size := size + 1;
    }
    c := Assemble(compact, size);
  }

  method SignBit(compact: u32) returns (sign: nat)
    requires compact < 0x100_0000
    ensures sign != 0 <==> compact >= 0x80_0000
  {
    Literals();
    AndBit(compact, 23);
    sign := And(compact, 0x80_0000);
  }

  method Assemble(compact: u32, size: nat) returns (c: u32)
    requires compact < 0x100_0000 && size < 0x100
    ensures c == size * 0x100_0000 + compact
  {
    hide Or, Pow2;
    Literals();
    OrComm(compact, size * 0x100_0000);
    OrDisjoint(size, 24, compact);
    SmallMod(size * 0x100_0000, 0x1_0000_0000);
    c := Or(compact, size * 0x100_0000 % 0x1_0000_0000);
  }
}
