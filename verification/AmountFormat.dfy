/** Printing amounts in a denomination (`fmt_satoshi_in`). */
module AmountFormat {
  import opened Arith
  import opened Words
  import opened Sequences
  import opened Numerals
  import opened Padding
  import opened AmountParse

  function Name(denom: Denomination): string {
    match denom
    case Dash => "DASH"
    case CentiDash => "cDASH"
    case MilliDash => "mDASH"
    case MicroDash => "uDASH"
    case NanoDash => "nDASH"
    case PicoDash => "pDASH"
    case Bit => "bits"
    case Satoshi => "satoshi"
    case MilliSatoshi => "msat"
  }

  // ----- the number -----

  /** The digits before the dot. */
  function Whole(sats: u64, p: int): (s: string)
    requires -8 <= p <= 4
    ensures s != [] && AllDigits(s)
  {
    if p < 0 then
      DivNonNeg(sats, Pow(10, -p));
      Dec(sats / Pow(10, -p))
    else if sats == 0 then Dec(0)
    else Dec(sats) + Repeat('0', p)
  }

  /** The digits after the dot, without trailing zeros. */
  function Fraction(sats: u64, p: int): (s: string)
    requires -8 <= p <= 4
    ensures AllDigits(s)
  {
    if p < 0 then
      var all := Fixed(sats % Pow(10, -p), -p);
      assert forall i :: 0 <= i < |Stripped(all)| ==> Stripped(all)[i] == all[i];
      Stripped(all)
    else []
  }

  function Dotted(whole: string, fraction: string): string {
    if fraction == [] then whole else whole + "." + fraction
  }

  /** A fraction extended with zeros to a requested number of decimals. */
  function Extended(fraction: string, precision: nat): (s: string)
    ensures |s| == Max(precision, |fraction|)
  {
    fraction + Repeat('0', Max(precision, |fraction|) - |fraction|)
  }

  function NumberText(sats: u64, p: int, precision: nat): string
    requires -8 <= p <= 4
  {
    Dotted(Whole(sats, p), Extended(Fraction(sats, p), precision))
  }

  lemma DottedReads(whole: string, fraction: string)
    requires AllDigits(whole) && AllDigits(fraction)
    ensures Numeral(Dotted(whole, fraction))
    ensures Decimals(Dotted(whole, fraction)) == |fraction|
    ensures Number(Dotted(whole, fraction)) == Number(whole) * Pow(10, |fraction|) + Number(fraction)
  {
    DigitsNumeral(whole);
    Append(whole, []);
    if fraction != [] {
      Snoc(whole, '.');
      Append(whole + ".", fraction);
    }
  }

  lemma ZerosAdded(s: string, n: nat)
    requires AllDigits(s)
    ensures AllDigits(s + Repeat('0', n)) && Number(s + Repeat('0', n)) == Number(s) * Pow(10, n)
  {
    Append(s, Repeat('0', n));
    ZerosAreZero(Repeat('0', n));
  }

  /** Decimals x of f places, written with l places instead: the same part of a k-place unit. */
  lemma SamePart(x: nat, f: nat, k: nat, l: nat)
    requires f <= k && f <= l
    ensures x * Pow(10, l - f) * Pow(10, k) == x * Pow(10, k - f) * Pow(10, l)
  {
    hide Pow;
    PowAdd(10, l - f, k);
    PowAdd(10, k - f, l);
    MulAssoc(x, Pow(10, l - f), Pow(10, k));
    MulAssoc(x, Pow(10, k - f), Pow(10, l));
    assert l - f + k == k - f + l;
  }

  lemma Distribute(q: nat, a: nat, r: nat, b: nat, x: nat)
    requires x * b == r * a
    ensures (q * a + x) * b == (q * b + r) * a
  {
    assert q * a * b == q * b * a;
  }

  lemma FractionPart(sats: u64, p: int)
    requires -8 <= p < 0
    ensures var f := Fraction(sats, p);
            |f| <= -p && Number(f) * Pow(10, -p - |f|) == sats % Pow(10, -p)
  {
    hide Pow, Number;
    FixedNumber(sats % Pow(10, -p), -p);
    var f := Fraction(sats, p);
    ZerosAdded(f, -p - |f|);
  }

  lemma CoarseDenotes(sats: u64, p: int, l: nat)
    requires -8 <= p < 0 && |Fraction(sats, p)| <= l
    ensures |Fraction(sats, p)| <= -p
    ensures var n := Number(Whole(sats, p)) * Pow(10, l) + Number(Fraction(sats, p)) * Pow(10, l - |Fraction(sats, p)|);
            n * Pow(10, -p) == sats * Pow(10, l)
  {
    hide Pow, Number, Fraction;
    var d := Pow(10, -p);
    DivModOf(sats, d);
    var f := Fraction(sats, p);
    FractionPart(sats, p);
    SamePart(Number(f), |f|, -p, l);
    Distribute(sats / d, Pow(10, l), sats % d, d, Number(f) * Pow(10, l - |f|));
  }

  lemma FineDenotes(sats: u64, p: nat, l: nat)
    requires p <= 4
    ensures Number(Whole(sats, p)) * Pow(10, l) == sats * Pow(10, l + p)
  {
    hide Pow, Number;
    PowAdd(10, p, l);
    MulAssoc(sats, Pow(10, p), Pow(10, l));
    if sats > 0 {
      ZerosAdded(Dec(sats), p);
    }
  }

  /** The digits printed denote the amount exactly, whatever the requested precision. */
  lemma NumberDenotes(sats: u64, p: int, precision: nat)
    requires -8 <= p <= 4
    ensures Denotes(NumberText(sats, p, precision), p, sats)
    ensures Decimals(NumberText(sats, p, precision)) == Max(precision, |Fraction(sats, p)|)
    ensures |Fraction(sats, p)| <= if p < 0 then -p else 0
  {
    hide Pow, Number, Stripped, Whole, Numeral, Decimals;
    var f := Fraction(sats, p);
    var l := Max(precision, |f|);
    ZerosAdded(f, l - |f|);
    DottedReads(Whole(sats, p), Extended(f, precision));
    if p < 0 {
      CoarseDenotes(sats, p, l);
    } else {
      NoFraction(l);
      FineDenotes(sats, p, l);
    }
  }

  lemma NoFraction(l: nat)
    ensures Number([]) * Pow(10, l) == 0 && Pow(10, 0) == 1
  {
  }

  // ----- the layout -----

  function SuffixText(denom: Denomination, showDenom: bool): string {
    if showDenom then " " + Name(denom) else ""
  }

  /** The width without padding. */
  function Natural(sats: u64, negative: bool, denom: Denomination, showDenom: bool, o: FormatOptions): nat {
    var number := NumberText(sats, denom.Precision(), OrZero(o.precision));
    |SignText(negative, o)| + |number| + |SuffixText(denom, showDenom)|
  }

  /** What `fmt_satoshi_in` writes. */
  function LayoutOf(sats: u64, negative: bool, denom: Denomination, showDenom: bool, o: FormatOptions): Layout {
    var number := NumberText(sats, denom.Precision(), OrZero(o.precision));
    LayOut(SignText(negative, o), number, SuffixText(denom, showDenom), o)
  }

  /**
   The text is exactly as wide as requested or needed, whichever is more, and between the
   paddings it denotes the amount exactly: a precision adds zeros and never rounds.
   */
  lemma LayoutSound(sats: u64, negative: bool, denom: Denomination, showDenom: bool, o: FormatOptions)
    ensures var l := LayoutOf(sats, negative, denom, showDenom, o);
            && |Join(l)| == Max(OrZero(o.width), Natural(sats, negative, denom, showDenom, o))
            && Denotes(l.zeros + l.number, denom.Precision(), sats)
            && Decimals(l.zeros + l.number) >= OrZero(o.precision)
            && (o.signAwareZeroPad ==> l.left == l.right == [])
            && (!o.signAwareZeroPad ==> l.zeros == [])
            && (l.sign == "-" <==> negative) && (l.sign == "+" <==> o.signPlus && !negative) && |l.sign| <= 1
            && l.suffix == if showDenom then " " + Name(denom) else ""
  {
    hide NumberText, Denotes, Decimals, Join, Name;
    var p, precision := denom.Precision(), OrZero(o.precision);
    var number := NumberText(sats, p, precision);
    NumberDenotes(sats, p, precision);
    WidthExact(SignText(negative, o), number, SuffixText(denom, showDenom), o);
    var l := LayoutOf(sats, negative, denom, showDenom, o);
    ZerosInFront(|l.zeros|, number, p, sats);
    assert l.zeros == Repeat('0', |l.zeros|);
  }

  /** Zeros in front of a numeral change nothing. */
  lemma ZerosInFront(n: nat, s: string, p: int, v: nat)
    requires Denotes(s, p, v)
    ensures Denotes(Repeat('0', n) + s, p, v) && Decimals(Repeat('0', n) + s) == Decimals(s)
  {
    ReadAfterZeros(n, s);
  }

  // ----- the writer -----

  /** `dec_width`. */
  method DecWidth(num: u64) returns (width: nat)
    ensures width == |Dec(num)|
  {
    width := 1;
    var n: nat := num;
    while true
      invariant width + |Dec(n)| == |Dec(num)| + 1
      decreases n
    {
      n := n / 10;
      if n == 0 {
        break;
      }
      width := width + 1;
    }
  }

  lemma StripStep(v: nat, n: nat)
    requires 0 < v < Pow(10, n) && v % 10 == 0
    ensures n > 0 && 0 < v / 10 < Pow(10, n - 1)
    ensures Stripped(Fixed(v, n)) == Stripped(Fixed(v / 10, n - 1))
  {
    var s := Fixed(v, n);
    assert s[..n - 1] == Fixed(v / 10, n - 1);
  }

  /** The loop that strips trailing zeros from the decimals, a number of n digits. */
  method StripZeros(decimals: nat, places: nat) returns (after: nat, n: nat)
    requires decimals < Pow(10, places)
    ensures n == |Stripped(Fixed(decimals, places))|
    ensures n > 0 ==>
              |Dec(after)| <= n && Repeat('0', n - |Dec(after)|) + Dec(after) == Stripped(Fixed(decimals, places))
  {
    hide Pow, Dec, Fixed, Stripped;
    after := decimals;
    if after == 0 {
      StrippedZero(places);
      return after, 0;
    }
    n := places;
    while after % 10 == 0
      invariant 0 < after < Pow(10, n)
      invariant Stripped(Fixed(after, n)) == Stripped(Fixed(decimals, places))
      decreases after
    {
      StripStep(after, n);
      n := n - 1;
      after := after / 10;
    }
    StripDone(after, n);
  }

  lemma StrippedZero(n: nat)
    ensures Stripped(Fixed(0, n)) == []
  {
    FixedOfZero(n);
  }

  lemma StripDone(v: nat, n: nat)
    requires 0 < v < Pow(10, n) && v % 10 != 0
    ensures n > 0 && Stripped(Fixed(v, n)) == Fixed(v, n)
    ensures |Dec(v)| <= n && Repeat('0', n - |Dec(v)|) + Dec(v) == Fixed(v, n)
  {
    assert n > 0;
    PaddedIsFixed(v, n);
  }

  /** The numbers that are printed to give the digits before and after the dot. */
  ghost predicate Pieces(whole: string, fraction: string, precision: nat,
                         before: u64, exp: nat, after: nat, decimals: nat, trailing: nat) {
    && whole == Dec(before) + Repeat('0', exp)
    && decimals == |fraction|
    && (decimals > 0 ==> |Dec(after)| <= decimals && fraction == Repeat('0', decimals - |Dec(after)|) + Dec(after))
    && Extended(fraction, precision) == fraction + Repeat('0', trailing)
  }

  /** The first half of `fmt_satoshi_in`: the pieces of the number. */
  method Normalize(sats: u64, p: int, precision: nat)
    returns (before: u64, exp: nat, after: nat, decimals: nat, trailing: nat)
    requires -8 <= p <= 4
    ensures Pieces(Whole(sats, p), Fraction(sats, p), precision, before, exp, after, decimals, trailing)
  {
    hide Pow, Dec, Fixed, Stripped;
    before, exp, after, decimals, trailing := sats, 0, 0, 0, precision;
    if p > 0 {
      if sats > 0 {
        exp := p;
      }
    } else if p < 0 {
      var divisor := Pow(10, -p);
      DivModOf(sats, divisor);
      QuotientFits(sats, divisor);
      before := sats / divisor;
      after, decimals := StripZeros(sats % divisor, -p);
      trailing := if precision > decimals then precision - decimals else 0;
    }
  }

  lemma QuotientFits(x: u64, d: nat)
    requires d > 0
    ensures 0 <= x / d < MAX64
  {
    DivNonNeg(x, d);
    DivModOf(x, d);
    MulMono(1, d, x / d);
  }

  /** The width computation. */
  method NumWidth(before: u64, exp: nat, totalDecimals: nat, negative: bool, denom: Denomination, showDenom: bool,
                  o: FormatOptions) returns (width: nat)
    ensures width == (if totalDecimals > 0 then 1 + totalDecimals else 0) + |Dec(before)| + exp
                   + |SignText(negative, o)| + |SuffixText(denom, showDenom)|
  {
    width := if totalDecimals > 0 then 1 + totalDecimals else 0;
    var w := DecWidth(before);
    width := width + w + exp;
    if o.signPlus || negative {
      width := width + 1;
    }
    if showDenom {
      width := width + |Name(denom)| + 1;
    }
  }

  /** Writing the number itself. */
  method WriteNumber(buffer: string, before: u64, exp: nat, after: nat, decimals: nat, trailing: nat,
                     ghost whole: string, ghost fraction: string, ghost precision: nat) returns (text: string)
    requires Pieces(whole, fraction, precision, before, exp, after, decimals, trailing)
    ensures text == buffer + Dotted(whole, Extended(fraction, precision))
  {
    hide Dec;
    text := buffer + Dec(before);
    text := RepeatChar(text, '0', exp);
    assert text == buffer + whole;
    if decimals + trailing > 0 {
      text := text + ".";
    }
    ghost var dotted := text;
    if decimals > 0 {
      text := RepeatChar(text, '0', decimals - |Dec(after)|);
      text := text + Dec(after);
    }
    assert text == dotted + fraction;
    text := RepeatChar(text, '0', trailing);
    assert text == dotted + Extended(fraction, precision);
  }

  /** The second half of `fmt_satoshi_in`: everything is written in order. */
  method WritePieces(before: u64, exp: nat, after: nat, decimals: nat, trailing: nat, numWidth: nat,
                     sats: u64, negative: bool, denom: Denomination, showDenom: bool, o: FormatOptions)
    returns (text: string)
    requires Pieces(Whole(sats, denom.Precision()), Fraction(sats, denom.Precision()), OrZero(o.precision),
                    before, exp, after, decimals, trailing)
    requires numWidth == Natural(sats, negative, denom, showDenom, o)
    ensures text == Join(LayoutOf(sats, negative, denom, showDenom, o))
  {
    hide Pieces, Whole, Fraction, Name, Extended, Dotted, Pads, LayOut;
    ghost var sign, suffix := SignText(negative, o), SuffixText(denom, showDenom);
    ghost var l := LayoutOf(sats, negative, denom, showDenom, o);
    PadsOfLayout(sign, NumberText(sats, denom.Precision(), OrZero(o.precision)), suffix, o);
    var (leftPad, rightPad) := Pads(numWidth, o);
    text := "";
    if !o.signAwareZeroPad {
      text := RepeatChar(text, o.fill, leftPad);
    }
    assert text == l.left;
    if negative {
      text := text + "-";
    } else if o.signPlus {
      text := text + "+";
    }
    assert text == l.left + l.sign;
    if o.signAwareZeroPad {
      text := RepeatChar(text, '0', leftPad);
    }
    assert text == l.left + l.sign + l.zeros;
    text := WriteNumber(text, before, exp, after, decimals, trailing,
                        Whole(sats, denom.Precision()), Fraction(sats, denom.Precision()), OrZero(o.precision));
    if showDenom {
      text := text + (" " + Name(denom));
    }
    assert text == l.left + l.sign + l.zeros + l.number + l.suffix;
    text := RepeatChar(text, o.fill, rightPad);
  }

  /** `fmt_satoshi_in`. */
  method FmtSatoshiIn(sats: u64, negative: bool, denom: Denomination, showDenom: bool, o: FormatOptions)
    returns (text: string)
    ensures text == Join(LayoutOf(sats, negative, denom, showDenom, o))
  {
    hide Dec, Whole, Fraction, Name, LayoutOf, Join, SignText, SuffixText;
    var p, precision := denom.Precision(), OrZero(o.precision);
    var before, exp, after, decimals, trailing := Normalize(sats, p, precision);
    var numWidth := NumWidth(before, exp, decimals + trailing, negative, denom, showDenom, o);
    assert |NumberText(sats, p, precision)| ==
           |Whole(sats, p)| + if decimals + trailing > 0 then 1 + decimals + trailing else 0;
    text := WritePieces(before, exp, after, decimals, trailing, numWidth, sats, negative, denom, showDenom, o);
  }
}
