/** What one unit of each denomination is worth, by the texts that stand for it. */
module Units {
  import opened Arith
  import opened Words
  import opened Numerals
  import opened AmountParse
  import opened AmountFormat

  /** A unit of at least a satoshi is `factor` satoshis and takes `places` decimals. */
  ghost predicate Above(d: Denomination, factor: nat, places: nat) {
    match d
    case Dash => factor == 100_000_000 && places == 8
    case CentiDash => factor == 1_000_000 && places == 6
    case MilliDash => factor == 100_000 && places == 5
    case MicroDash => factor == 100 && places == 2
    case Bit => factor == 100 && places == 2
    case Satoshi => factor == 1 && places == 0
    case _ => false
  }

  /** A smaller unit: `factor` of them make a satoshi. */
  ghost predicate Below(d: Denomination, factor: nat) {
    match d
    case NanoDash => factor == 10
    case MilliSatoshi => factor == 1000
    case PicoDash => factor == 10_000
    case _ => false
  }

  lemma PowersOfTen()
    ensures Pow(10, 0) == 1 && Pow(10, 1) == 10 && Pow(10, 2) == 100 && Pow(10, 3) == 1000 && Pow(10, 4) == 10_000
    ensures Pow(10, 5) == 100_000 && Pow(10, 6) == 1_000_000 && Pow(10, 8) == 100_000_000
  {
    PowAdd(10, 2, 2);
    PowAdd(10, 3, 2);
    PowAdd(10, 3, 3);
    PowAdd(10, 4, 4);
  }

  lemma AboveFactor(d: Denomination, factor: nat, places: nat)
    requires Above(d, factor, places)
    ensures d.Precision() + places == 0 && Pow(10, places) == factor
  {
    PowersOfTen();
  }

  lemma BelowFactor(d: Denomination, factor: nat)
    requires Below(d, factor)
    ensures d.Precision() > 0 && Pow(10, d.Precision()) == factor > 0
  {
    PowersOfTen();
  }

  lemma PlainText(t: string, whole: string, fraction: string)
    requires whole != [] && AllDigits(whole) && AllDigits(fraction) && t == Dotted(whole, fraction)
    ensures t != [] && t[0] != '-' && ByteLen(t) == |t|
  {
    AsciiLength(t);
  }

  /**
   n units and f / 10^k of one, written with k decimals, are read as v satoshis exactly when
   v is n + f / 10^k times the worth of the unit.
   */
  lemma Worth(d: Denomination, factor: nat, places: nat, n: nat, f: nat, k: nat, v: u64)
    requires Above(d, factor, places) && k <= places && f < Pow(10, k)
    requires |Dotted(Dec(n), Fixed(f, k))| <= 50
    ensures Parsed(Dotted(Dec(n), Fixed(f, k)), d) == Ok(Signed(false, v)) <==>
              v * Pow(10, k) == (n * Pow(10, k) + f) * factor
  {
    hide Dec, Fixed, Parsed, Pow, Number, Numeral, Decimals, ByteLen, Dotted, Above;
    var t := Dotted(Dec(n), Fixed(f, k));
    AboveFactor(d, factor, places);
    PlainText(t, Dec(n), Fixed(f, k));
    FixedNumber(f, k);
    DottedReads(Dec(n), Fixed(f, k));
    ParsedExactly(t, d, false, v);
    ReadsAs(d, t, v);
  }

  lemma ReadsAs(d: Denomination, t: string, v: nat)
    requires d.Precision() <= 0 && Numeral(t) && Decimals(t) <= -d.Precision() && v < MAX64
    ensures Accepted(t, d, v) <==> Number(t) * Pow(10, -d.Precision()) == v * Pow(10, Decimals(t))
  {
    hide Number, Numeral, Decimals, Pow;
  }

  /** n whole units, up to 64 bits. */
  lemma WholeUnits(d: Denomination, factor: nat, places: nat, n: nat)
    requires Above(d, factor, places) && n * factor < MAX64
    ensures Parsed(Dec(n), d) == Ok(Signed(false, n * factor))
  {
    hide Above, Parsed, Dec;
    AboveFactor(d, factor, places);
    MulMono(1, factor, n);
    TwentyDigits(20);
    DecLength(n, 20);
    assert Dotted(Dec(n), Fixed(0, 0)) == Dec(n);
    OneIsPow();
    Worth(d, factor, places, n, 0, 0, n * factor);
  }

  lemma OneIsPow()
    ensures Pow(10, 0) == 1
  {
  }

  /** k small units are read exactly when they make whole satoshis. */
  lemma SmallUnits(d: Denomination, factor: nat, k: nat, v: u64)
    requires Below(d, factor) && |Dec(k)| <= 50
    ensures Parsed(Dec(k), d) == Ok(Signed(false, v)) <==> k == v * factor
  {
    hide Below, Parsed, Dec, ByteLen, Number;
    BelowFactor(d, factor);
    DigitsNumeral(Dec(k));
    AsciiLength(Dec(k));
    ParsedExactly(Dec(k), d, false, v);
    SmallAccepted(Dec(k), d, v);
  }

  lemma SmallAccepted(t: string, d: Denomination, v: nat)
    requires d.Precision() > 0 && t != [] && AllDigits(t) && v < MAX64
    ensures Accepted(t, d, v) <==> Number(t) == v * Pow(10, d.Precision())
  {
    DigitsNumeral(t);
    OneIsPow();
    hide Numeral, Decimals, Pow;
    if SignedZero(t) {
      ZeroDenoted(t, d.Precision());
    }
    hide Number;
  }
}
