/** Which compact encodings the encoder gives back. */
module CompactCode {
  import opened Arith
  import opened Words
  import opened Uint256
  import opened CompactTarget

  /**
   Zero only as 0; otherwise a mantissa without sign bit whose top nine bits are not all clear,
   without digits below the number's last byte, and no number beyond 256 bits.
   */
  ghost predicate Normalised(c: u32) {
    var size, mant := c / 0x100_0000, c % 0x100_0000;
    c == 0 ||
    (&& 1 <= size <= 33 && 0x8000 <= mant < 0x80_0000
     && (size < 3 ==> mant % Bytes(3 - size) == 0)
     && (size == 33 ==> mant < 0x1_0000))
  }

  /** The window of a number fixes its size. */
  lemma SizeUnique(v: nat, s: nat)
    requires s >= 1 && 0 < v < Pow2(8 * s - 1) && (s > 1 ==> Pow2(8 * s - 9) <= v)
    ensures SignedSize(v) == s
  {
    var n := BitLen(v);
    BitLenBound(v, 8 * s - 1);
    if s > 1 && n <= 8 * s - 9 {
      Pow2Mono(n, 8 * s - 9);
    }
  }

  /** The encoder puts out only normalised codes. */
  lemma EncodedIsNormalised(v: nat)
    requires v < MODULUS
    ensures 0 <= CompactOf(v) < 0x1_0000_0000 && Normalised(CompactOf(v))
  {
    CompactFits(v);
    SizeAtMost33(v);
    LeadingBytesBound(v);
    var s, m := SignedSize(v), LeadingBytes(v, SignedSize(v));
    DivModUnique(CompactOf(v), 0x100_0000, s, m);
    hide Pow2, Bytes;
    if v > 0 {
      if s <= 3 {
        SmallMantissa(v, s);
      } else {
        LargeMantissa(v, s);
      }
    }
  }

  lemma Seven()
    ensures Pow2(7) == 0x80
  {
  }

  lemma SmallMantissa(v: nat, s: nat)
    requires v > 0 && s == SignedSize(v) <= 3
    ensures s >= 1 && v * Bytes(3 - s) >= 0x8000 && (s < 3 ==> v * Bytes(3 - s) % Bytes(3 - s) == 0)
  {
    hide Pow2, Bytes, SignedSize;
    Literals();
    Seven();
    SignedSizeBounds(v);
    DivModUnique(v * Bytes(3 - s), Bytes(3 - s), v, 0);
  }

  lemma LargeMantissa(v: nat, s: nat)
    requires v < MODULUS && s == SignedSize(v) > 3
    ensures v / Bytes(s - 3) >= 0x8000
    ensures s == 33 ==> v / Bytes(s - 3) < 0x1_0000
  {
    hide Pow2;
    Literals();
    SignedSizeBounds(v);
    Pow2Add(15, 8 * (s - 3));
    assert 15 + 8 * (s - 3) == 8 * s - 9;
    DivLess(v, Bytes(s - 3), 0x8000);
    if s == 33 {
      ModulusIsPow2();
      Pow2Add(16, 240);
      DivLess(v, Bytes(s - 3), 0x1_0000);
    }
  }

  lemma ExactQuotient(m: nat, b: nat, lo: nat, hi: nat)
    requires b > 0 && m % b == 0 && m > 0 && lo * b <= m < hi * b
    ensures m / b * b == m && 0 < m / b && lo <= m / b < hi
  {
    DivModOf(m, b);
    DivNonNeg(m, b);
    DivLess(m, b, lo);
    DivLess(m, b, hi);
  }

  /** A normalised code up to three bytes decodes to its leading bytes. */
  lemma SmallNormalised(size: nat, mant: nat, v: int)
    requires 1 <= size <= 3 && 0x8000 <= mant < 0x80_0000 && (size < 3 ==> mant % Bytes(3 - size) == 0)
    requires v == mant / Bytes(3 - size)
    ensures 0 < v <= mant && SignedSize(v) == size && v * Bytes(3 - size) == mant && Val(Scaled(v, 0)) == v
  {
    hide Pow2, Bytes, SignedSize, Scaled;
    SmallWindow(size, mant);
    MulMono(1, Bytes(3 - size), v);
    SizeUnique(v, size);
    SmallDecoded(v, size, mant);
  }

  lemma SmallWindow(size: nat, mant: nat)
    requires 1 <= size <= 3 && 0x8000 <= mant < 0x80_0000 && (size < 3 ==> mant % Bytes(3 - size) == 0)
    ensures var v := mant / Bytes(3 - size);
            && v * Bytes(3 - size) == mant && 0 < v < Pow2(8 * size - 1)
            && (size > 1 ==> Pow2(8 * size - 9) <= v)
  {
    Literals();
    Seven();
    hide Pow2, Bytes;
    if size == 1 {
      ExactQuotient(mant, 0x1_0000, 0, 0x80);
    } else if size == 2 {
      ExactQuotient(mant, 0x100, 0x80, 0x8000);
    } else {
      ExactQuotient(mant, 1, 0x8000, 0x80_0000);
    }
  }

  lemma LargeNormalised(size: nat, mant: nat)
    requires 3 < size <= 33 && 0x8000 <= mant < 0x80_0000 && (size == 33 ==> mant < 0x1_0000)
    ensures var v := mant * Bytes(size - 3);
            && 0 < v < MODULUS && SignedSize(v) == size && v / Bytes(size - 3) == mant
            && Val(Scaled(mant, 8 * (size - 3))) == v
  {
    hide Pow2;
    Literals();
    ModulusIsPow2();
    var k, v := 8 * (size - 3), mant * Bytes(size - 3);
    Pow2Add(15, k);
    Pow2Add(23, k);
    MulMono(0x8000, mant, Pow2(k));
    MulStrict(mant, 0x80_0000, Pow2(k));
    if size == 33 {
      Pow2Add(16, k);
      MulStrict(mant, 0x1_0000, Pow2(k));
    } else {
      Pow2Mono(23 + k, 256);
    }
    SizeUnique(v, size);
    DivModUnique(v, Pow2(k), mant, 0);
    ScaledValue(mant, k);
  }

  /** Decoding and encoding a code gives it back exactly when it is normalised. */
  lemma CodeRoundTrip(c: u32)
    ensures CompactOf(Val(FromCompact(c))) == c <==> Normalised(c)
  {
    hide Pow2, Bytes, Scaled, FromCompact, Val;
    var size, mant := c / 0x100_0000, c % 0x100_0000;
    EncodedIsNormalised(Val(FromCompact(c)));
    if Normalised(c) {
      DecodeParts(c, size, mant);
      if c == 0 {
        ZeroCode();
      } else if size <= 3 {
        SmallNormalised(size, mant, mant / Bytes(3 - size));
      } else {
        LargeNormalised(size, mant);
      }
    }
  }

  lemma ZeroCode()
    ensures CompactOf(Val(FromCompact(0))) == 0
  {
    DecodeParts(0, 0, 0);
    DivModUnique(0, Bytes(3), 0, 0);
    ScaledValue(0, 0);
  }

  // ----- what every code means -----

  /**
   The number a code stands for, by its size byte and 24-bit mantissa: up to three bytes the
   leading bytes of the mantissa; above, mantissa * 256^(size - 3) with the distance taken
   modulo 32 bytes and cut to 256 bits; zero when the sign bit of the mantissa is set.
   */
  ghost function Meaning(size: nat, mant: nat): int {
    if size < 3 then mant / Bytes(3 - size)
    else if mant >= 0x80_0000 then 0
    else mant * Bytes((size - 3) % 32) % MODULUS
  }

  lemma DecodedMeans(c: u32)
    ensures Val(FromCompact(c)) == Meaning(c / 0x100_0000, c % 0x100_0000)
  {
    hide Pow2, Bytes, Val, Scaled, FromCompact;
    var size, mant := c / 0x100_0000, c % 0x100_0000;
    DecodeParts(c, size, mant);
    Literals();
    if size < 3 {
      SmallMeans(size, mant);
    } else if size == 3 {
      DivModUnique(mant, 1, mant, 0);
      ScaledMeans(mant, 0);
    } else {
      ScaledMeans(mant, size - 3);
    }
  }

  lemma SmallMeans(size: nat, mant: nat)
    requires size < 3 && mant < 0x100_0000 && 0 <= mant / Bytes(3 - size) <= mant
    ensures Val(Scaled(mant / Bytes(3 - size), 0)) == mant / Bytes(3 - size)
  {
    Literals();
    var v := mant / Bytes(3 - size);
    DivModOf(mant, Bytes(3 - size));
    hide Pow2, Bytes, Scaled;
    MulMono(0x100, Bytes(3 - size), v);
    ScaledValueAtZero(v);
  }

  lemma ScaledValueAtZero(v: nat)
    requires v < 0x80_0000
    ensures Val(Scaled(v, 0)) == v
  {
    assert Pow2(0) == 1;
    ScaledValue(v, 0);
  }

  lemma ScaledMeans(mant: nat, j: nat)
    requires mant < 0x100_0000
    ensures Val(Scaled(mant, 8 * j)) == if mant >= 0x80_0000 then 0 else mant * Bytes(j % 32) % MODULUS
  {
    hide Pow2;
    assert 8 * j % 256 == 8 * (j % 32);
  }

  /** Exactly the codes that decode to zero, a set sign bit among them. */
  lemma DecodesToZero(c: u32)
    ensures var size, mant := c / 0x100_0000, c % 0x100_0000;
            FromCompact(c) == ZERO <==>
              if size < 3 then mant < Bytes(3 - size)
              else mant >= 0x80_0000 || mant % Pow2(256 - 8 * ((size - 3) % 32)) == 0
  {
    hide Pow2, Bytes, Val, FromCompact;
    var size, mant := c / 0x100_0000, c % 0x100_0000;
    DecodedMeans(c);
    ZeroIsZero(FromCompact(c));
    if size < 3 {
      DivNonNeg(mant, Bytes(3 - size));
      DivLess(mant, Bytes(3 - size), 1);
    } else {
      CutToZero(mant, (size - 3) % 32);
    }
  }

  lemma ZeroIsZero(u: U256)
    ensures u == ZERO <==> Val(u) == 0
  {
    if Val(u) == 0 {
      ValInjective(u, ZERO);
    }
  }

  lemma CutToZero(mant: nat, k: nat)
    requires k < 32
    ensures mant * Bytes(k) % MODULUS == 0 <==> mant % Pow2(256 - 8 * k) == 0
  {
    ModulusIsPow2();
    Pow2Split(8 * k, 256);
    hide Pow2;
    var r := mant % Pow2(256 - 8 * k);
    ScaleMod(mant, Bytes(k), Pow2(256 - 8 * k));
    if r > 0 {
      MulStrict(0, r, Bytes(k));
    }
  }
}
